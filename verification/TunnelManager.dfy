// TunnelManager.cpp: listeners, links, SSH connections and tunnels as a state machine. Every
// callback is one atomic step, and what libevent and libssh answer is an input of the step.
module TunnelManagers {
  import opened Endpoints
  import opened Tunnels

  class SocketListener {
    const base: TunnelWorker
    const localPort: int

    constructor (base: TunnelWorker, localPort: int)
      ensures this.base == base && this.localPort == localPort
    {
      this.base, this.localPort := base, localPort;
    }
  }

  /** The tuple in tunnelLink. */
  datatype Link = Link(host: Address, user: User, destination: Address)

  /** A tuple with nothing set: the ports of its addresses hold whatever was in memory. */
  function BlankLink(port1: int, port2: int): Link {
    Link(Address("", port1), User("", ""), Address("", port2))
  }

  /** The first connection that has a channel left; |bucket| if none has. */
  ghost function FirstUsable(bucket: seq<SSHConnection>): (i: nat)
    reads bucket
    ensures i <= |bucket|
    ensures forall k :: 0 <= k < i ==> bucket[k].numChannels >= 15
    ensures i < |bucket| ==> bucket[i].numChannels < 15
  {
    if bucket == [] then 0
    else if bucket[0].CanCreateChannel() then 0
    else 1 + FirstUsable(bucket[1..])
  }

  /** The connections clean-up leaves in a bucket, in their order. */
  ghost function KeptConnections(bucket: seq<SSHConnection>): (kept: seq<SSHConnection>)
    reads bucket
    ensures forall c :: c in kept ==> c in bucket
    ensures forall c :: c in bucket ==> (c in kept <==> !c.CanBeRemoved())
  {
    if bucket == [] then []
    else
      var c := bucket[|bucket| - 1];
      KeptConnections(bucket[..|bucket| - 1]) + if c.CanBeRemoved() then [] else [c]
  }

  /** The connections clean-up does not delete. */
  ghost function RemainingConnections(connections: set<SSHConnection>): set<SSHConnection>
    reads connections
  {
    set c | c in connections && !c.CanBeRemoved()
  }

  /** a is b with some elements left out. */
  ghost predicate Sublist<T>(a: seq<T>, b: seq<T>)
    decreases |b|
  {
    if b == [] then a == []
    else
      var last := |b| - 1;
      Sublist(a, b[..last]) || (a != [] && a[|a| - 1] == b[last] && Sublist(a[..|a| - 1], b[..last]))
  }

  lemma {:induction false} KeptIsSublist(bucket: seq<SSHConnection>)
    ensures Sublist(KeptConnections(bucket), bucket)
  {
    if bucket != [] {
      var last := |bucket| - 1;
      KeptIsSublist(bucket[..last]);
      var kept, all := KeptConnections(bucket[..last]), KeptConnections(bucket);
      if bucket[last].CanBeRemoved() {
        assert all == kept + [] == kept;
      } else {
        assert all == kept + [bucket[last]] && all[..|all| - 1] == kept;
      }
    }
  }

  lemma {:induction false} KeptIsDistinct(bucket: seq<SSHConnection>)
    requires Distinct(bucket)
    ensures Distinct(KeptConnections(bucket))
  {
    if bucket != [] {
      KeptIsDistinct(bucket[..|bucket| - 1]);
    }
  }

  /** The buckets hold exactly these connections, each once and under its own key. */
  ghost predicate Filed(openConnections: map<Key, seq<SSHConnection>>, connections: set<SSHConnection>) {
    && (forall k :: k in openConnections ==>
          Distinct(openConnections[k])
          && forall c :: c in openConnections[k] ==> c in connections && KeyOf(c.host, c.user) == k)
    && (forall c :: c in connections ==>
          KeyOf(c.host, c.user) in openConnections && c in openConnections[KeyOf(c.host, c.user)])
  }

  /** Listeners and links: a port is linked only while it is listened to. */
  ghost predicate Listening(openListeners: map<int, SocketListener>, tunnelLink: map<int, Link>, pool: set<TunnelWorker>) {
    && tunnelLink.Keys <= openListeners.Keys
    && (forall p :: p in openListeners ==> openListeners[p].localPort == p && openListeners[p].base in pool)
  }

  /** Tunnels run over connections that are not deleted, and no two are the same. */
  ghost predicate Tunnelling(activeTunnels: seq<Tunnel>, connections: set<SSHConnection>, pool: set<TunnelWorker>) {
    && Distinct(activeTunnels)
    && (forall t :: t in activeTunnels ==> t.connection in connections && t.worker in pool)
  }

  /** Each connection's active channels are the tunnels that run over it. */
  ghost predicate Accounts(activeTunnels: seq<Tunnel>, connections: set<SSHConnection>)
    reads connections
  {
    forall c :: c in connections ==> c.Accounted(Users(activeTunnels, c))
  }

  lemma MoreListening(openListeners: map<int, SocketListener>, tunnelLink: map<int, Link>, pool: set<TunnelWorker>,
                      listener: SocketListener)
    requires Listening(openListeners, tunnelLink, pool) && listener.base in pool
    ensures Listening(openListeners[listener.localPort := listener], tunnelLink, pool)
  {
  }

  lemma DistinctWorkers(workers: seq<TunnelWorker>, pool: set<TunnelWorker>)
    requires multiset(workers) == multiset(pool)
    ensures Distinct(workers)
    ensures forall w :: w in workers <==> w in pool
  {
    forall w ensures w in workers <==> w in pool {
      assert w in workers <==> w in multiset(workers);
    }
    forall i, j | 0 <= i < j < |workers| ensures workers[i] != workers[j] {
      MultisetWithout(workers, j);
      assert Without(workers, j)[i] == workers[i];
      assert workers[i] in multiset(Without(workers, j));
    }
  }

  lemma {:induction false} PoolOfDistinct(workers: seq<TunnelWorker>)
    requires Distinct(workers)
    ensures multiset(workers) == multiset(set w | w in workers)
  {
    if workers != [] {
      var last := |workers| - 1;
      var rest := workers[..last];
      PoolOfDistinct(rest);
      assert workers == rest + [workers[last]];
      assert (set w | w in workers) == (set w | w in rest) + {workers[last]};
    }
  }

  lemma ShiftedTwice(load: map<TunnelWorker, int>, w: TunnelWorker, n: int, m: int)
    requires w in load
    ensures w in Shifted(load, w, n) && Shifted(Shifted(load, w, n), w, m) == Shifted(load, w, n + m)
    ensures Shifted(load, w, 0) == load
  {
  }

  method KeepUsed(connVector: seq<SSHConnection>) returns (newVec: seq<SSHConnection>)
    ensures newVec == KeptConnections(connVector)
  {
    newVec := [];
    for i := 0 to |connVector|
      invariant newVec == KeptConnections(connVector[..i])
    {
      assert connVector[..i + 1][..i] == connVector[..i];
      if !connVector[i].CanBeRemoved() {
        newVec := newVec + [connVector[i]];
      }
    }
    assert connVector[..|connVector|] == connVector;
  }

  method NewWorkers(startLoads: seq<int>) returns (staff: seq<TunnelWorker>)
    ensures multiset(staff) == multiset(set w | w in staff)
    ensures |staff| == |startLoads| && TotalWork(staff) == Sum(startLoads)
    ensures forall w :: w in staff ==> fresh(w)
  {
    staff := [];
    for i := 0 to |startLoads|
      invariant |staff| == i && Distinct(staff) && Loads(staff) == startLoads[..i]
      invariant forall w :: w in staff ==> fresh(w)
    {
      var w := new TunnelWorker(startLoads[i]);
      assert w !in staff;
      assert Loads(staff + [w]) == Loads(staff) + [w.amountOfWork];
      staff := staff + [w];
    }
    assert startLoads[..|startLoads|] == startLoads;
    PoolOfDistinct(staff);
  }

  /** w carries the least load. */
  ghost predicate LeastBusy(w: TunnelWorker, load: map<TunnelWorker, int>) {
    w in load && forall v :: v in load ==> load[w] <= load[v]
  }

  ghost function Shifted(load: map<TunnelWorker, int>, w: TunnelWorker, n: int): map<TunnelWorker, int>
    requires w in load
  {
    load[w := load[w] + n]
  }

  /** A connection put at the end of the bucket of its key. */
  lemma FiledMore(openConnections: map<Key, seq<SSHConnection>>, connections: set<SSHConnection>, c: SSHConnection)
    requires Filed(openConnections, connections) && c !in connections
    ensures var key := KeyOf(c.host, c.user);
            var bucket := if key in openConnections then openConnections[key] else [];
            Filed(openConnections[key := bucket + [c]], connections + {c})
  {
    var key := KeyOf(c.host, c.user);
    var bucket := if key in openConnections then openConnections[key] else [];
    assert c !in bucket && Distinct(bucket + [c]);
    forall d | d in connections + {c} ensures
      KeyOf(d.host, d.user) in openConnections[key := bucket + [c]]
      && d in openConnections[key := bucket + [c]][KeyOf(d.host, d.user)]
    {
      assert d != c ==> d in openConnections[KeyOf(d.host, d.user)];
    }
  }

  lemma TunnellingMore(activeTunnels: seq<Tunnel>, connections: set<SSHConnection>, pool: set<TunnelWorker>, c: SSHConnection)
    requires Tunnelling(activeTunnels, connections, pool)
    ensures Tunnelling(activeTunnels, connections + {c}, pool)
  {
  }

  lemma FiledEmpty(openConnections: map<Key, seq<SSHConnection>>, connections: set<SSHConnection>, key: Key)
    requires Filed(openConnections, connections) && (key in openConnections ==> openConnections[key] == [])
    ensures Filed(openConnections[key := []], connections)
  {
  }

  /** No tunnel runs over a connection that has just been created. */
  lemma NotYetUsed(activeTunnels: seq<Tunnel>, connections: set<SSHConnection>, pool: set<TunnelWorker>, c: SSHConnection)
    requires Tunnelling(activeTunnels, connections, pool) && c !in connections
    ensures forall t :: t in activeTunnels ==> t.connection != c
  {
  }

  /** No connection has fewer channels counted than before, or more than the budget. */
  ghost predicate Grown(before: map<SSHConnection, int>)
    reads before.Keys
  {
    forall c :: c in before ==> before[c] <= c.numChannels <= 15
  }

  /** Only the connection that was asked for a channel may have more of them counted. */
  lemma OneGrown(before: map<SSHConnection, int>, conn: SSHConnection?, outcome: ChannelOutcome)
    requires forall c :: c in before ==> before[c] <= 15 && (c != conn ==> c.numChannels == before[c])
    requires conn != null && conn in before ==> before[conn] < 15 && Counted(before[conn], conn.numChannels, outcome)
    ensures Grown(before)
  {
  }

  ghost function ChannelsOf(connections: set<SSHConnection>): map<SSHConnection, int>
    reads connections
  {
    map c | c in connections :: c.numChannels
  }

  ghost predicate Same(c: SSHConnection, numChannels: int, numActiveChannels: int, pending: bool)
    reads c
  {
    c.numChannels == numChannels && c.numActiveChannels == numActiveChannels && c.pending == pending
  }

  lemma TunnellingWithout(activeTunnels: seq<Tunnel>, connections: set<SSHConnection>, pool: set<TunnelWorker>, i: nat)
    requires i < |activeTunnels| && Tunnelling(activeTunnels, connections, pool)
    ensures Tunnelling(Without(activeTunnels, i), connections, pool)
    ensures activeTunnels[i] !in Without(activeTunnels, i)
  {
    var rest := Without(activeTunnels, i);
    assert forall j :: 0 <= j < |rest| ==> rest[j] == activeTunnels[if j < i then j else j + 1];
  }

  /** Clean-up leaves every connection a tunnel runs over. */
  lemma UsedAreKept(activeTunnels: seq<Tunnel>, connections: set<SSHConnection>, pool: set<TunnelWorker>)
    requires Tunnelling(activeTunnels, connections, pool) && Accounts(activeTunnels, connections)
    ensures Tunnelling(activeTunnels, RemainingConnections(connections), pool) && Accounts(activeTunnels, RemainingConnections(connections))
  {
    forall t | t in activeTunnels ensures !t.connection.CanBeRemoved() {
      UsedConnection(activeTunnels, t);
    }
  }

  /** The connections clean-up deletes are those that are used up and have no user. */
  lemma RemovableMeans(activeTunnels: seq<Tunnel>, connections: set<SSHConnection>)
    requires Accounts(activeTunnels, connections)
    ensures forall c :: c in connections ==>
              (c in RemainingConnections(connections) <==> !(Users(activeTunnels, c) == 0 && c.numChannels == 15))
  {
  }

  /** A connection stays in its bucket exactly if it stays at all. */
  lemma FiledSame(openConnections: map<Key, seq<SSHConnection>>, connections: set<SSHConnection>)
    requires Filed(openConnections, connections)
    ensures forall k, c :: k in openConnections && c in openConnections[k] ==>
              c in connections && (c in KeptConnections(openConnections[k]) <==> c in RemainingConnections(connections))
    ensures forall k :: k in openConnections ==> Sublist(KeptConnections(openConnections[k]), openConnections[k])
    ensures RemainingConnections(connections) <= connections
  {
    forall k | k in openConnections ensures Sublist(KeptConnections(openConnections[k]), openConnections[k]) {
      KeptIsSublist(openConnections[k]);
    }
  }

  lemma FiledKept(openConnections: map<Key, seq<SSHConnection>>, connections: set<SSHConnection>,
                  after: map<Key, seq<SSHConnection>>)
    requires Filed(openConnections, connections) && after.Keys == openConnections.Keys
    requires forall k :: k in after ==> after[k] == KeptConnections(openConnections[k])
    ensures Filed(after, RemainingConnections(connections))
  {
    forall k | k in after ensures Distinct(after[k]) {
      KeptIsDistinct(openConnections[k]);
    }
  }

  method FindUsable(bucket: seq<SSHConnection>) returns (i: nat)
    ensures i == FirstUsable(bucket)
  {
    i := 0;
    while i < |bucket| && !bucket[i].CanCreateChannel()
      invariant i <= |bucket|
      invariant forall k :: 0 <= k < i ==> !bucket[k].CanCreateChannel()
    {
      i := i + 1;
    }
  }

  class TunnelManager {
    var workers: seq<TunnelWorker>
    const managementWorker: TunnelWorker
    var openListeners: map<int, SocketListener>
    var tunnelLink: map<int, Link>
    var openConnections: map<Key, seq<SSHConnection>>
    var activeTunnels: seq<Tunnel>

    /** The workers in no order, and the load they began with. */
    ghost const pool: set<TunnelWorker>
    ghost const startWork: int
    /** The connections that are not deleted. */
    ghost var connections: set<SSHConnection>
    ghost var listenersCreated: nat
    ghost var connectionsAttached: nat

    ghost predicate Staffed()
      reads this`workers
    {
      workers != [] && multiset(workers) == multiset(pool) && managementWorker !in pool
    }

    /** Conservation of load, with `extra` units not yet accounted for. */
    ghost predicate Conserved(extra: int)
      reads this`workers, this`listenersCreated, this`connectionsAttached, this`activeTunnels, pool, workers
    {
      TotalWork(workers) == startWork + 2 + listenersCreated + connectionsAttached + |activeTunnels| + extra
    }

    ghost predicate ValidBut(extra: int)
      reads this, pool, workers, connections
    {
      && Staffed() && Conserved(extra)
      && Listening(openListeners, tunnelLink, pool)
      && Filed(openConnections, connections)
      && Tunnelling(activeTunnels, connections, pool)
      && Accounts(activeTunnels, connections)
    }

    ghost predicate Valid()
      reads this, pool, workers, connections
    {
      ValidBut(0)
    }

    /** What every worker is loaded with. */
    ghost function LoadOf(): (load: map<TunnelWorker, int>)
      reads pool
      ensures load.Keys == pool && forall w :: w in pool ==> load[w] == w.amountOfWork
    {
      map w | w in pool :: w.amountOfWork
    }

    /** startLoads: the load counters are not initialised. */
    constructor (startLoads: seq<int>, managementLoad: int)
      requires startLoads != []
      ensures Valid()
      ensures |multiset(workers)| == |startLoads| && startWork == Sum(startLoads)
      ensures openListeners == map[] && tunnelLink == map[] && openConnections == map[] && activeTunnels == []
      ensures listenersCreated == 0 && connectionsAttached == 0
      ensures fresh(pool) && fresh(managementWorker) && managementWorker.amountOfWork == managementLoad + 1
    {
      hide TotalWork, LoadOf, Listening, Filed, Tunnelling, Accounts;
      var management := new TunnelWorker(managementLoad);
      management.AddWork();
      var staff := NewWorkers(startLoads);
      managementWorker := management;
      pool := set w | w in staff;
      startWork := Sum(startLoads);
      workers := staff;
      openListeners, tunnelLink, openConnections, activeTunnels := map[], map[], map[], [];
      connections, listenersCreated, connectionsAttached := {}, 0, 0;
      new;
      NothingYet();
      ScheduleEvents();
    }

    lemma NothingYet()
      requires openListeners == map[] && tunnelLink == map[] && openConnections == map[] && connections == {}
      requires activeTunnels == []
      ensures Listening(openListeners, tunnelLink, pool) && Filed(openConnections, connections)
      ensures Tunnelling(activeTunnels, connections, pool) && Accounts(activeTunnels, connections)
    {
    }

    // ---------- workers ----------

    method NextAvailableWorker() returns (w: TunnelWorker)
      requires Staffed()
      modifies this`workers
      ensures Staffed() && multiset(workers) == old(multiset(workers))
      ensures w == workers[0] && w in pool
      ensures LeastBusy(w, LoadOf())
      ensures TotalWork(workers) == old(TotalWork(workers))
    {
      ghost var before := workers;
      workers := SortByWork(workers);
      assert |multiset(workers)| == |workers|;
      w := workers[0];
      DistinctWorkers(workers, pool);
      TotalWorkOfPermutation(before, workers);
      assert forall i :: 0 <= i < |workers| ==> Loads(workers)[0] <= Loads(workers)[i];
    }

    method AddWorkTo(w: TunnelWorker)
      requires Staffed() && w in pool
      modifies w
      ensures LoadOf() == Shifted(old(LoadOf()), w, 1)
      ensures TotalWork(workers) == old(TotalWork(workers)) + 1
    {
      hide TotalWork, Loads, Distinct;
      DistinctWorkers(workers, pool);
      ChangeWork(workers, w, true);
    }

    method RemoveWorkFrom(w: TunnelWorker)
      requires Staffed() && w in pool
      modifies w
      ensures LoadOf() == Shifted(old(LoadOf()), w, -1)
      ensures TotalWork(workers) == old(TotalWork(workers)) - 1
    {
      hide TotalWork, Loads, Distinct;
      DistinctWorkers(workers, pool);
      ChangeWork(workers, w, false);
    }

    /** nextAvailableWorker() followed by addWork() on that worker. */
    method AssignWork() returns (w: TunnelWorker)
      requires Staffed()
      modifies this`workers, pool
      ensures Staffed() && w in pool
      ensures LeastBusy(w, old(LoadOf())) && LoadOf() == Shifted(old(LoadOf()), w, 1)
      ensures TotalWork(workers) == old(TotalWork(workers)) + 1
    {
      hide TotalWork, LeastBusy, Shifted;
      w := NextAvailableWorker();
      assert LoadOf() == old(LoadOf());
      AddWorkTo(w);
    }

    /** The statistics and the clean-up event. */
    method ScheduleEvents()
      requires Staffed()
      modifies this`workers, pool
      ensures Staffed() && TotalWork(workers) == old(TotalWork(workers)) + 2
    {
      var w := AssignWork();
      w := AssignWork();
    }

    // ---------- creating and closing a tunnel ----------

    /** The one difference is a listener at this port. */
    ghost predicate ListenerAdded(localPort: int, before: map<int, SocketListener>)
      reads this`openListeners
      ensures ListenerAdded(localPort, before) ==> localPort in openListeners
    {
      localPort in openListeners && openListeners == before[localPort := openListeners[localPort]]
      && openListeners[localPort].localPort == localPort
    }

    method CreateListener(localPort: int) returns (result: int)
      requires Valid()
      modifies this`workers, this`openListeners, this`listenersCreated, pool
      ensures Valid()
      ensures result == if localPort in old(openListeners) then -1 else 0
      ensures result == -1 ==> workers == old(workers) && openListeners == old(openListeners) && LoadOf() == old(LoadOf())
      ensures result == 0 ==>
                && ListenerAdded(localPort, old(openListeners))
                && LeastBusy(openListeners[localPort].base, old(LoadOf()))
                && LoadOf() == Shifted(old(LoadOf()), openListeners[localPort].base, 1)
      ensures listenersCreated == old(listenersCreated) + if result == 0 then 1 else 0
    {
      hide TotalWork, Filed, Tunnelling, Accounts, Listening, LeastBusy, Shifted, LoadOf;
      if localPort in openListeners {
        return -1;
      }
      var worker := AssignWork();
      var listener := new SocketListener(worker, localPort);
      MoreListening(openListeners, tunnelLink, pool, listener);
      openListeners := openListeners[localPort := listener];
      listenersCreated := listenersCreated + 1;
      return 0;
    }

    /** A connection of the bucket of this key exists. */
    ghost predicate Served(host: Address, user: User)
      reads this`openConnections
    {
      KeyOf(host, user) in openConnections && openConnections[KeyOf(host, user)] != []
    }

    /** A port can be linked: there is no bucket yet, or one with a connection in it. */
    ghost predicate Linkable(host: Address, user: User)
      reads this`openConnections
    {
      KeyOf(host, user) in openConnections ==> openConnections[KeyOf(host, user)] != []
    }

    /** The one difference is a new connection to this host for this user, alone in its bucket. */
    ghost predicate OnlyAdded(host: Address, user: User, openBefore: map<Key, seq<SSHConnection>>,
                              connectionsBefore: set<SSHConnection>)
      reads this`openConnections, this`connections, connections
    {
      exists c :: c in connections && c !in connectionsBefore && connections == connectionsBefore + {c}
                  && c.host == host && c.user == user && c.numChannels == 0
                  && openConnections == openBefore[KeyOf(host, user) := [c]]
    }

    method IsSSHConnectionOpen(host: Address, user: User) returns (result: int)
      ensures result == if KeyOf(host, user) in openConnections then |openConnections[KeyOf(host, user)]| else -1
      ensures result > 0 <==> Served(host, user)
    {
      if KeyOf(host, user) in openConnections {
        return |openConnections[KeyOf(host, user)]|;
      }
      return -1;
    }

    /** A connected SSHConnection is given its event and its place in the map. */
    method Attach(c: SSHConnection, ghost extra: int)
      requires ValidBut(extra) && c !in connections && c.numChannels == 0 && c.numActiveChannels == 0
      requires forall t :: t in activeTunnels ==> t.connection != c
      modifies this`openConnections, this`connections, this`connectionsAttached, c
      ensures ValidBut(extra - 1) && c.numChannels == 0 && c.numActiveChannels == 0 && c.hasEvent
      ensures connections == old(connections) + {c} && connectionsAttached == old(connectionsAttached) + 1
      ensures var key := KeyOf(c.host, c.user);
              openConnections == old(openConnections)[key :=
                (if key in old(openConnections) then old(openConnections[key]) else []) + [c]]
    {
      hide TotalWork, Filed, Tunnelling, Users;
      var key := KeyOf(c.host, c.user);
      FiledMore(openConnections, connections, c);
      UnusedConnection(activeTunnels, c);
      c.SetPollCallBack();
      openConnections := openConnections[key := (if key in openConnections then openConnections[key] else []) + [c]];
      connections := connections + {c};
      connectionsAttached := connectionsAttached + 1;
      TunnellingMore(activeTunnels, old(connections), pool, c);
    }

    /** The poll event of a connection is handled by the least busy worker. */
    method AssignWorkToConnection()
      requires ValidBut(-1)
      modifies this`workers, pool
      ensures Valid()
      ensures exists w :: LeastBusy(w, old(LoadOf())) && LoadOf() == Shifted(old(LoadOf()), w, 1)
    {
      hide TotalWork, Filed, Tunnelling, Accounts, Listening, LeastBusy, Shifted, LoadOf;
      var worker := AssignWork();
    }

    /** connects: whether connect() succeeds. */
    method CreateSSHConnection(host: Address, user: User, connects: bool) returns (result: int)
      requires Valid()
      modifies this`workers, this`openConnections, this`connections, this`connectionsAttached, pool
      ensures Valid()
      ensures fresh(connections - old(connections))
      ensures result == if old(Served(host, user)) || connects then 0 else -1
      ensures connectionsAttached == old(connectionsAttached) + if !old(Served(host, user)) && connects then 1 else 0
      ensures old(Served(host, user)) || !connects ==> connections == old(connections) && LoadOf() == old(LoadOf())
      ensures old(Served(host, user)) ==> openConnections == old(openConnections)
      ensures !old(Served(host, user)) && !connects ==> openConnections == old(openConnections)[KeyOf(host, user) := []]
      ensures result == 0 ==> Served(host, user)
      ensures !old(Served(host, user)) && connects ==>
                && OnlyAdded(host, user, old(openConnections), old(connections))
                && exists w :: LeastBusy(w, old(LoadOf())) && LoadOf() == Shifted(old(LoadOf()), w, 1)
    {
      hide TotalWork, Filed, Tunnelling, Accounts, Listening, LeastBusy, Shifted, LoadOf, KeyOf, Conserved;
      var open := IsSSHConnectionOpen(host, user);
      if open > 0 {
        return 0;
      }
      var key := KeyOf(host, user);
      FiledEmpty(openConnections, connections, key);
      openConnections := openConnections[key := []];
      var connection := new SSHConnection(host, user);
      if connects {
        Attach(connection, 0);
        assert [] + [connection] == [connection];
        assert openConnections == old(openConnections)[key := [connection]];
        assert openConnections[key][0] == connection;
        assert LoadOf() == old(LoadOf());
        AssignWorkToConnection();
        return 0;
      }
      return -1;
    }

    lemma UnlistenedPort(localPort: int)
      requires Valid() && localPort !in openListeners
      ensures localPort !in tunnelLink
    {
    }

    lemma KnownListener(localPort: int)
      requires Valid() && localPort in openListeners
      ensures openListeners[localPort].localPort == localPort
    {
    }

    lemma KnownTunnel(which: nat)
      requires Valid() && which < |activeTunnels|
      ensures activeTunnels[which].worker in pool && activeTunnels[which].connection in connections
    {
    }

    lemma WithinBudget()
      requires Valid()
      ensures forall c :: c in connections ==> 0 <= c.numChannels <= 15
      ensures Grown(ChannelsOf(connections))
    {
    }

    method LinkPort(localPort: int, link: Link)
      requires Valid() && localPort in openListeners
      modifies this`tunnelLink
      ensures Valid() && tunnelLink == old(tunnelLink)[localPort := link]
    {
      hide TotalWork, Filed, Tunnelling, Accounts, Conserved;
      tunnelLink := tunnelLink[localPort := link];
    }

    /** Taking back the listener just created. */
    method EraseListener(localPort: int, ghost before: map<int, SocketListener>)
      requires Valid() && localPort !in tunnelLink && localPort !in before && ListenerAdded(localPort, before)
      modifies this`openListeners
      ensures Valid() && openListeners == before
    {
      hide TotalWork, Filed, Tunnelling, Accounts, Conserved;
      openListeners := openListeners - {localPort};
      assert openListeners == before;
    }

    /** Connects unless a connection with the same key is open, and links the port. A bucket that
        clean-up or a failed attempt left empty counts as an existing tunnel: then there is no
        connection, and no link either. */
    method ConnectAndLink(localPort: int, middleAddress: Address, middleUser: User, destination: Address, connects: bool)
      returns (result: int)
      requires Valid() && localPort in openListeners
      modifies this`workers, this`tunnelLink
      modifies this`openConnections, this`connections, this`connectionsAttached, pool
      ensures Valid()
      ensures fresh(connections - old(connections))
      ensures result == if KeyOf(middleAddress, middleUser) in old(openConnections) || connects then 0 else -2
      ensures tunnelLink == if result == 0 && old(Linkable(middleAddress, middleUser))
                            then old(tunnelLink)[localPort := Link(middleAddress, middleUser, destination)]
                            else old(tunnelLink)
      ensures ConnectionsAfter(result, middleAddress, middleUser, old(openConnections), old(connections), old(connectionsAttached))
    {
      hide ValidBut, LoadOf, KeyOf;
      var open := IsSSHConnectionOpen(middleAddress, middleUser);
      if open == 0 {
        return 0;
      }
      var connected := CreateSSHConnection(middleAddress, middleUser, connects);
      if connected == 0 {
        LinkPort(localPort, Link(middleAddress, middleUser, destination));
        return 0;
      }
      return -2;
    }

    /** How the connections differ after createTunnel() answers `result`, -2 leaving an empty bucket behind. */
    ghost predicate ConnectionsAfter(result: int, host: Address, user: User, openBefore: map<Key, seq<SSHConnection>>,
                                     connectionsBefore: set<SSHConnection>, attachedBefore: nat)
      reads this`openConnections, this`connections, this`connectionsAttached, connections
    {
      if result == 0 && KeyOf(host, user) !in openBefore then
        OnlyAdded(host, user, openBefore, connectionsBefore) && connectionsAttached == attachedBefore + 1
      else
        && connections == connectionsBefore && connectionsAttached == attachedBefore
        && openConnections == if result == -2 then openBefore[KeyOf(host, user) := []] else openBefore
    }

    method CreateTunnel(localPort: int, middleAddress: Address, middleUser: User, destination: Address, connects: bool)
      returns (result: int)
      requires Valid()
      modifies this`workers, this`openListeners, this`listenersCreated, this`tunnelLink
      modifies this`openConnections, this`connections, this`connectionsAttached, pool
      ensures Valid()
      ensures fresh(connections - old(connections))
      ensures result == if localPort in old(openListeners) then -1
                        else if KeyOf(middleAddress, middleUser) in old(openConnections) || connects then 0
                        else -2
      ensures result == -1 ==> workers == old(workers) && LoadOf() == old(LoadOf())
      ensures listenersCreated == old(listenersCreated) + if result == -1 then 0 else 1
      ensures result != 0 ==> openListeners == old(openListeners)
      ensures result == 0 ==> ListenerAdded(localPort, old(openListeners))
      ensures tunnelLink == if result == 0 && old(Linkable(middleAddress, middleUser))
                            then old(tunnelLink)[localPort := Link(middleAddress, middleUser, destination)]
                            else old(tunnelLink)
      ensures ConnectionsAfter(result, middleAddress, middleUser, old(openConnections), old(connections), old(connectionsAttached))
    {
      assert localPort !in openListeners ==> localPort !in tunnelLink by {
        if localPort !in openListeners { UnlistenedPort(localPort); }
      }
      assert localPort in openListeners ==> ConnectionsAfter(-1, middleAddress, middleUser, openConnections, connections, connectionsAttached);
      hide ValidBut, LoadOf, KeyOf, ConnectionsAfter, ListenerAdded;
      var listening := CreateListener(localPort);
      if listening == 0 {
        result := ConnectAndLink(localPort, middleAddress, middleUser, destination, connects);
        if result != 0 {
          EraseListener(localPort, old(openListeners));
        }
        return result;
      }
      return -1;
    }

    /** Neither the work of the listener nor the connection is taken back. */
    method CloseTunnel(localPort: int, forceClose: bool) returns (result: int)
      requires Valid()
      modifies this`openListeners, this`tunnelLink
      ensures Valid()
      ensures result == if localPort in old(openListeners) then 0 else -1
      ensures openListeners == old(openListeners) - {localPort} && tunnelLink == old(tunnelLink) - {localPort}
    {
      hide TotalWork, Filed, Tunnelling, Accounts, Conserved;
      if localPort !in openListeners {
        return -1;
      }
      openListeners := openListeners - {localPort};
      tunnelLink := tunnelLink - {localPort};
      return 0;
    }

    // ---------- a caller arrives ----------

    ghost function BucketOf(host: Address, user: User): seq<SSHConnection>
      reads this`openConnections
    {
      if KeyOf(host, user) in openConnections then openConnections[KeyOf(host, user)] else []
    }

    /** What tunnelLink[port] yields. */
    ghost function LinkAt(localPort: int, port1: int, port2: int): Link
      reads this`tunnelLink
    {
      if localPort in tunnelLink then tunnelLink[localPort] else BlankLink(port1, port2)
    }

    /** How a connection is chosen for this endpoint, and what becomes of the map: i is the place of the first
        connection with a channel left. */
    ghost predicate Chosen(conn: SSHConnection?, host: Address, user: User, connects: bool,
                           openBefore: map<Key, seq<SSHConnection>>, connectionsBefore: set<SSHConnection>, i: nat)
      reads this`openConnections, this`connections
    {
      var key := KeyOf(host, user);
      var bucket := if key in openBefore then openBefore[key] else [];
      if i < |bucket| then
        conn == bucket[i] && openConnections == openBefore && connections == connectionsBefore
      else if key in openBefore && connects then
        && conn != null && conn !in connectionsBefore && conn.host == host && conn.user == user
        && (var c: SSHConnection := conn;
            openConnections == openBefore[key := bucket + [c]] && connections == connectionsBefore + {c})
      else
        conn == null && openConnections == openBefore && connections == connectionsBefore
    }

    /** A new, connected connection at the end of its bucket, its work on the given worker. */
    method AttachNew(host: Address, user: User, worker: TunnelWorker) returns (conn: SSHConnection)
      requires ValidBut(1) && worker in pool
      modifies this`openConnections, this`connections, this`connectionsAttached, worker
      ensures ValidBut(1)
      ensures fresh(conn) && conn.host == host && conn.user == user && conn.numChannels == 0
      ensures openConnections == old(openConnections)[KeyOf(host, user) := old(BucketOf(host, user)) + [conn]]
      ensures connections == old(connections) + {conn}
      ensures LoadOf() == Shifted(old(LoadOf()), worker, 1)
    {
      hide TotalWork, Tunnelling, Accounts, Listening, Filed, Shifted, LoadOf, KeyOf;
      conn := new SSHConnection(host, user);
      NotYetUsed(activeTunnels, connections, pool, conn);
      Attach(conn, 1);
      assert LoadOf() == old(LoadOf());
      AddWorkTo(worker);
    }

    /** The connection a channel is to be opened on: the first in the bucket with a channel left, or a new
        one, or none if the map has no bucket or connect() fails. */
    method ConnectionFor(host: Address, user: User, worker: TunnelWorker, connects: bool) returns (conn: SSHConnection?)
      requires ValidBut(1) && worker in pool
      modifies this`openConnections, this`connections, this`connectionsAttached, worker
      ensures ValidBut(1)
      ensures fresh(connections - old(connections))
      ensures conn != null ==> conn in connections && conn.CanCreateChannel() && KeyOf(conn.host, conn.user) == KeyOf(host, user)
      ensures Chosen(conn, host, user, connects, old(openConnections), old(connections), old(FirstUsable(BucketOf(host, user))))
      ensures conn != null && conn !in old(connections) ==> fresh(conn) && conn.numChannels == 0
      ensures LoadOf() == if conn == null || conn in old(connections) then old(LoadOf()) else Shifted(old(LoadOf()), worker, 1)
    {
      hide TotalWork, Tunnelling, Accounts, Listening, Shifted, LoadOf, KeyOf, Conserved, Staffed;
      var key := KeyOf(host, user);
      if key !in openConnections {
        return null;
      }
      var allConnections := openConnections[key];
      var i := FindUsable(allConnections);
      if i < |allConnections| {
        return allConnections[i];
      }
      if !connects {
        return null;
      }
      conn := AttachNew(host, user, worker);
    }

    /** createEndPoint() on a connection with a channel left, and the tunnel over the new channel. */
    method OpenTunnel(conn: SSHConnection, worker: TunnelWorker, outcome: ChannelOutcome) returns (tunnel: Tunnel?)
      requires ValidBut(1) && worker in pool && conn in connections && conn.CanCreateChannel()
      modifies this`activeTunnels, conn
      ensures ValidBut(if tunnel == null then 1 else 0)
      ensures tunnel != null <==> outcome == Opened
      ensures tunnel != null ==> fresh(tunnel) && tunnel.connection == conn && tunnel.worker == worker
      ensures activeTunnels == old(activeTunnels) + if tunnel == null then [] else [tunnel]
      ensures Counted(old(conn.numChannels), conn.numChannels, outcome)
    {
      hide TotalWork, Filed, Listening, KeyOf;
      var ok := conn.CreateEndPoint(outcome);
      if !ok {
        return null;
      }
      tunnel := new Tunnel(conn, worker);
      activeTunnels := activeTunnels + [tunnel];
    }

    method TakeWorker(ghost extra: int) returns (w: TunnelWorker)
      requires ValidBut(extra)
      modifies this`workers, pool
      ensures ValidBut(extra + 1) && w in pool
      ensures LeastBusy(w, old(LoadOf())) && LoadOf() == Shifted(old(LoadOf()), w, 1)
    {
      hide TotalWork, Filed, Tunnelling, Accounts, Listening, LeastBusy, Shifted, LoadOf;
      w := AssignWork();
    }

    /** The local socket is deleted again. */
    method GiveBack(w: TunnelWorker, ghost extra: int)
      requires ValidBut(extra) && w in pool
      modifies w
      ensures ValidBut(extra - 1) && LoadOf() == Shifted(old(LoadOf()), w, -1)
    {
      hide TotalWork, Filed, Tunnelling, Accounts, Listening, Shifted, LoadOf;
      RemoveWorkFrom(w);
    }

    /** The tunnel, or else the local socket is deleted. */
    method OpenOrGiveBack(c: SSHConnection?, w: TunnelWorker, outcome: ChannelOutcome) returns (tunnel: Tunnel?)
      requires ValidBut(1) && w in pool && (c != null ==> c in connections && c.CanCreateChannel())
      modifies this`activeTunnels, w, if c == null then {} else {c}
      ensures Valid()
      ensures tunnel != null <==> c != null && outcome == Opened
      ensures tunnel != null ==> fresh(tunnel) && tunnel.connection == c && tunnel.worker == w
      ensures activeTunnels == old(activeTunnels) + if tunnel == null then [] else [tunnel]
      ensures c != null ==> Counted(old(c.numChannels), c.numChannels, outcome)
      ensures LoadOf() == if tunnel == null then Shifted(old(LoadOf()), w, -1) else old(LoadOf())
    {
      hide ValidBut, LoadOf, Shifted;
      if c == null {
        GiveBack(w, 1);
        return null;
      }
      tunnel := OpenTunnel(c, w, outcome);
      assert LoadOf() == old(LoadOf());
      if tunnel == null {
        GiveBack(w, 1);
      }
    }

    /** From the new local socket to the tunnel, or back. worker and conn are the ones the step chose. */
    method Serve(link: Link, connects: bool, outcome: ChannelOutcome)
      returns (tunnel: Tunnel?, ghost worker: TunnelWorker, ghost conn: SSHConnection?)
      requires Valid()
      modifies this`workers, this`openConnections, this`connections, this`connectionsAttached
      modifies this`activeTunnels, pool, connections
      ensures Valid()
      ensures fresh(connections - old(connections))
      ensures LeastBusy(worker, old(LoadOf()))
      ensures Chosen(conn, link.host, link.user, connects, old(openConnections), old(connections),
                     old(FirstUsable(BucketOf(link.host, link.user))))
      ensures conn != null ==> conn in connections && KeyOf(conn.host, conn.user) == KeyOf(link.host, link.user)
      ensures conn != null ==>
                Counted(if conn in old(connections) then old(conn.numChannels) else 0, conn.numChannels, outcome)
      ensures conn != null && conn in old(connections) ==> old(conn.numChannels) < 15
      ensures forall c :: c in old(connections) && c != conn ==> Same(c, old(c.numChannels), old(c.numActiveChannels), old(c.pending))
      ensures tunnel != null <==> conn != null && outcome == Opened
      ensures tunnel != null ==> fresh(tunnel) && tunnel.connection == conn && tunnel.worker == worker
      ensures activeTunnels == old(activeTunnels) + if tunnel == null then [] else [tunnel]
      ensures LoadOf() == Shifted(old(LoadOf()), worker,
                                  (if tunnel == null then 0 else 1) + if conn == null || conn in old(connections) then 0 else 1)
    {
      hide ValidBut, Chosen, LeastBusy, LoadOf, FirstUsable, BucketOf, Shifted, Counted, KeyOf;
      ghost var bucket := BucketOf(link.host, link.user);
      var w := TakeWorker(0);
      assert BucketOf(link.host, link.user) == bucket && FirstUsable(bucket) == old(FirstUsable(bucket));
      var c := ConnectionFor(link.host, link.user, w, connects);
      worker, conn := w, c;
      ghost var load := old(LoadOf());
      ghost var more := if c == null || c in old(connections) then 0 else 1;
      ShiftedTwice(load, w, 1, more);
      ShiftedTwice(load, w, 1 + more, -1);
      tunnel := OpenOrGiveBack(c, w, outcome);
    }

    /** tunnelLink[localPort], which is inserted blank if it does not exist. */
    method Lookup(localPort: int, port1: int, port2: int) returns (res: Link)
      requires Valid() && localPort in openListeners
      modifies this`tunnelLink
      ensures Valid() && res == old(LinkAt(localPort, port1, port2)) && tunnelLink == old(tunnelLink)[localPort := res]
    {
      hide ValidBut;
      if localPort !in tunnelLink {
        LinkPort(localPort, BlankLink(port1, port2));
      }
      res := tunnelLink[localPort];
    }

    /** A caller at a listener. A port without a link is looked up nevertheless, which leaves a blank link
        behind. */
    method Accept(listener: SocketListener, port1: int, port2: int, connects: bool, outcome: ChannelOutcome)
      returns (tunnel: Tunnel?, ghost worker: TunnelWorker, ghost conn: SSHConnection?)
      requires Valid() && listener.localPort in openListeners && openListeners[listener.localPort] == listener
      modifies this`workers, this`tunnelLink, this`openConnections, this`connections, this`connectionsAttached
      modifies this`activeTunnels, pool, connections
      ensures Valid()
      ensures fresh(connections - old(connections))
      ensures LeastBusy(worker, old(LoadOf()))
      ensures tunnelLink == old(tunnelLink)[listener.localPort := old(LinkAt(listener.localPort, port1, port2))]
      ensures var link := old(LinkAt(listener.localPort, port1, port2));
              Chosen(conn, link.host, link.user, connects, old(openConnections), old(connections),
                     old(FirstUsable(BucketOf(link.host, link.user))))
      ensures var link := old(LinkAt(listener.localPort, port1, port2));
              conn != null ==> conn in connections && KeyOf(conn.host, conn.user) == KeyOf(link.host, link.user)
      ensures conn != null ==>
                var before := if conn in old(connections) then old(conn.numChannels) else 0;
                && before < 15
                && (outcome == Opened ==> conn.numChannels == before + 1)
                && (outcome == OpenFailed(false) ==> conn.numChannels == 15)
                && (outcome == NoChannel || outcome == OpenFailed(true) ==> conn.numChannels == before)
      ensures forall c :: c in old(connections) && c != conn ==> Same(c, old(c.numChannels), old(c.numActiveChannels), old(c.pending))
      ensures Grown(old(ChannelsOf(connections)))
      ensures tunnel != null <==> conn != null && outcome == Opened
      ensures tunnel != null ==> fresh(tunnel) && tunnel.connection == conn && tunnel.worker == worker
      ensures activeTunnels == old(activeTunnels) + if tunnel == null then [] else [tunnel]
      ensures LoadOf() == Shifted(old(LoadOf()), worker,
                                  (if tunnel == null then 0 else 1) + if conn == null || conn in old(connections) then 0 else 1)
    {
      hide ValidBut, Chosen, LeastBusy, LoadOf, FirstUsable, BucketOf, Shifted, Grown, LinkAt, KeyOf;
      var res := Lookup(listener.localPort, port1, port2);
      ghost var bucket := BucketOf(res.host, res.user);
      assert bucket == old(BucketOf(res.host, res.user)) && FirstUsable(bucket) == old(FirstUsable(bucket));
      ghost var channels := ChannelsOf(connections);
      WithinBudget();
      tunnel, worker, conn := Serve(res, connects, outcome);
      assert forall c :: c in channels && c != conn ==> Same(c, channels[c], old(c.numActiveChannels), old(c.pending));
      OneGrown(channels, conn, outcome);
    }

    // ---------- the end of a tunnel, and clean-up ----------

    /** One channel less in use on the connection of a tunnel: right if it was one of the active tunnels. */
    method Deactivate(ghost before: seq<Tunnel>, ghost i: nat, tunnel: Tunnel)
      requires i < |before| ==> before[i] == tunnel && activeTunnels == Without(before, i)
      requires Tunnelling(before, connections, pool) && Accounts(before, connections)
      modifies tunnel.connection
      ensures i < |before| ==> Tunnelling(activeTunnels, connections, pool) && Accounts(activeTunnels, connections)
      ensures tunnel.connection.numChannels == old(tunnel.connection.numChannels)
      ensures tunnel.connection.numActiveChannels == old(tunnel.connection.numActiveChannels) - 1
    {
      hide Users, Without;
      tunnel.connection.DeactivatedChannel();
      if i < |before| {
        TunnellingWithout(before, connections, pool, i);
        forall c | c in connections ensures c.Accounted(Users(activeTunnels, c)) {
          UsersWithout(before, i, c);
        }
      }
    }

    /** The close event of a tunnel. It keeps the accounts exactly if the tunnel is active; a second event for
        the same tunnel would take back work and a channel once more. */
    method LocalSocketClose(tunnel: Tunnel)
      requires Valid() && tunnel.worker in pool
      modifies this`activeTunnels, tunnel.worker, tunnel.connection
      ensures Valid() <==> tunnel in old(activeTunnels)
      ensures tunnel in old(activeTunnels) ==>
                exists i :: 0 <= i < |old(activeTunnels)| && old(activeTunnels)[i] == tunnel
                            && activeTunnels == Without(old(activeTunnels), i)
      ensures tunnel !in old(activeTunnels) ==> activeTunnels == old(activeTunnels)
      ensures LoadOf() == Shifted(old(LoadOf()), tunnel.worker, -1)
      ensures tunnel.connection.numChannels == old(tunnel.connection.numChannels)
      ensures tunnel.connection.numActiveChannels == old(tunnel.connection.numActiveChannels) - 1
    {
      hide TotalWork, Loads, Filed, Tunnelling, Accounts, Listening, Shifted, LoadOf, Without, Users;
      ghost var before, load := activeTunnels, LoadOf();
      var i := 0;
      while i < |activeTunnels| && activeTunnels[i] != tunnel
        invariant 0 <= i <= |activeTunnels|
        invariant tunnel !in activeTunnels[..i]
      {
        i := i + 1;
      }
      if i < |activeTunnels| {
        activeTunnels := Without(activeTunnels, i);
      }
      assert LoadOf() == load;
      RemoveWorkFrom(tunnel.worker);
      assert LoadOf() == Shifted(load, tunnel.worker, -1);
      ghost var total := TotalWork(workers);
      Deactivate(before, i, tunnel);
      assert TotalWork(workers) == total;
    }

    /** The close event of an active tunnel. */
    method CloseSocket(tunnel: Tunnel)
      requires Valid() && tunnel in activeTunnels
      modifies this`activeTunnels, tunnel.worker, tunnel.connection
      ensures Valid() && Grown(old(ChannelsOf(connections)))
    {
      WithinBudget();
      LocalSocketClose(tunnel);
    }

    /** Deletes the connections that have no channel left to give and none in use. */
    method CleanUp()
      requires Valid()
      modifies this`openConnections, this`connections
      ensures Valid()
      ensures openConnections.Keys == old(openConnections.Keys)
      ensures forall k :: k in openConnections ==> openConnections[k] == old(KeptConnections(openConnections[k]))
      ensures connections == old(RemainingConnections(connections))
      ensures forall t :: t in activeTunnels ==> t.connection in connections
      ensures connections <= old(connections)
      ensures forall c :: c in old(connections) ==>
                (c in connections <==> !(Users(activeTunnels, c) == 0 && c.numChannels == 15))
      ensures forall k :: k in openConnections ==> Sublist(openConnections[k], old(openConnections[k]))
      ensures forall k, c :: k in openConnections && c in old(openConnections[k]) ==> (c in openConnections[k] <==> c in connections)
    {
      RemovableMeans(activeTunnels, connections);
      FiledSame(openConnections, connections);
      hide ValidBut, KeptConnections, RemainingConnections, Sublist, Users;
      CleanBuckets();
    }

    /** The loop over the buckets. */
    method CleanBuckets()
      requires Valid()
      modifies this`openConnections, this`connections
      ensures Valid()
      ensures openConnections.Keys == old(openConnections.Keys)
      ensures forall k :: k in openConnections ==> openConnections[k] == old(KeptConnections(openConnections[k]))
      ensures connections == old(RemainingConnections(connections))
      ensures forall t :: t in activeTunnels ==> t.connection in connections
    {
      hide TotalWork, Filed, Tunnelling, Accounts, Listening, KeptConnections, RemainingConnections;
      ghost var kept := map k | k in openConnections :: KeptConnections(openConnections[k]);
      ghost var remaining := RemainingConnections(connections);
      UsedAreKept(activeTunnels, connections, pool);
      FiledKept(openConnections, connections, kept);
      var todo := openConnections.Keys;
      while todo != {}
        invariant todo <= openConnections.Keys == old(openConnections.Keys)
        invariant forall k :: k in openConnections ==>
                    openConnections[k] == if k in todo then old(openConnections)[k] else kept[k]
      {
        var k :| k in todo;
        var newVec := KeepUsed(openConnections[k]);
        assert newVec == kept[k] by {
          assert KeptConnections(openConnections[k]) == old(KeptConnections(openConnections[k]));
        }
        openConnections := openConnections[k := newVec];
        todo := todo - {k};
      }
      assert openConnections == kept;
      connections := remaining;
    }
  }
}
