// What holds in every run of the tunnel manager, and what some short runs show.
module TunnelRuns {
  import opened Endpoints
  import opened Tunnels
  import opened TunnelManagers

  /** The calls and callbacks, with what the outside answers. */
  datatype Event =
    | Create(localPort: int, middleAddress: Address, middleUser: User, destination: Address, connects: bool)
    | Close(localPort: int, forceClose: bool)
    | Caller(localPort: int, port1: int, port2: int, connected: bool, outcome: ChannelOutcome)
    | SocketClosed(which: nat)
    | CleanUpTimer

  type Endpoint = (Address, User)

  /** The endpoint an event brings in is one of these; a caller at a port without a link brings in the blank one. */
  ghost predicate Covered(e: Event, linked: bool, endpoints: iset<Endpoint>) {
    match e
    case Create(_, middleAddress, middleUser, _, _) => (middleAddress, middleUser) in endpoints
    case Caller(_, port1, port2, _, _) =>
      linked || (BlankLink(port1, port2).host, BlankLink(port1, port2).user) in endpoints
    case _ => true
  }

  ghost predicate IsLinked(m: TunnelManager, e: Event)
    reads m`tunnelLink
  {
    e.Caller? && e.localPort in m.tunnelLink
  }

  /** Every connection and every link is to one of these endpoints. */
  ghost predicate Within(m: TunnelManager, endpoints: iset<Endpoint>)
    reads m`connections, m`tunnelLink
  {
    && (forall c :: c in m.connections ==> (c.host, c.user) in endpoints)
    && (forall p :: p in m.tunnelLink ==> (m.tunnelLink[p].host, m.tunnelLink[p].user) in endpoints)
  }

  /** No two of them have the same key. */
  ghost predicate KeysTellApart(endpoints: iset<Endpoint>) {
    forall a, b :: a in endpoints && b in endpoints && KeyOf(a.0, a.1) == KeyOf(b.0, b.1) ==> a == b
  }

  /** A caller is taken to the endpoint its port is linked to, as long as the keys tell the endpoints apart. conn is the
      connection that was chosen for it. */
  method Call(m: TunnelManager, listener: SocketListener, port1: int, port2: int, connected: bool,
              outcome: ChannelOutcome, ghost endpoints: iset<Endpoint>)
    returns (tunnel: Tunnel?, ghost conn: SSHConnection?)
    requires m.Valid() && listener.localPort in m.openListeners && m.openListeners[listener.localPort] == listener
    modifies m, m.pool, m.connections
    ensures m.Valid() && fresh(m.connections - old(m.connections))
    ensures listener.localPort in m.tunnelLink
    ensures var e := Caller(listener.localPort, port1, port2, connected, outcome);
            old(Within(m, endpoints)) && Covered(e, old(IsLinked(m, e)), endpoints) ==> Within(m, endpoints)
    ensures Within(m, endpoints) && KeysTellApart(endpoints) && tunnel != null ==>
              && tunnel.connection.host == m.tunnelLink[listener.localPort].host
              && tunnel.connection.user == m.tunnelLink[listener.localPort].user
    ensures conn != null ==> conn in m.connections && (conn in old(m.connections) ==> old(conn.numChannels) < 15)
    ensures Grown(old(ChannelsOf(m.connections)))
  {
    hide m.ValidBut, LeastBusy, Shifted, m.LoadOf, FirstUsable, m.BucketOf, KeyOf, Grown, ChannelsOf;
    ghost var worker;
    tunnel, worker, conn := m.Accept(listener, port1, port2, connected, outcome);
  }

  /** A listener that is gone has no callers, and a tunnel that is gone has no close event. chosen is the connection a
      caller was given. No connection gets channels back. */
  method Step(m: TunnelManager, e: Event, ghost endpoints: iset<Endpoint>) returns (ghost chosen: SSHConnection?)
    requires m.Valid()
    modifies m, m.pool, m.connections
    ensures m.Valid() && fresh(m.connections - old(m.connections))
    ensures old(Within(m, endpoints)) && Covered(e, old(IsLinked(m, e)), endpoints) ==> Within(m, endpoints)
    ensures chosen != null ==> chosen in m.connections && (chosen in old(m.connections) ==> old(chosen.numChannels) < 15)
    ensures Grown(old(ChannelsOf(m.connections)))
  {
    hide m.ValidBut, Grown, ChannelsOf, Within;
    chosen := null;
    if e.Caller? {
      chosen := Arrive(m, e, endpoints);
    } else {
      Other(m, e, endpoints);
    }
  }

  method Arrive(m: TunnelManager, e: Event, ghost endpoints: iset<Endpoint>) returns (ghost chosen: SSHConnection?)
    requires m.Valid() && e.Caller?
    modifies m, m.pool, m.connections
    ensures m.Valid() && fresh(m.connections - old(m.connections))
    ensures old(Within(m, endpoints)) && Covered(e, old(IsLinked(m, e)), endpoints) ==> Within(m, endpoints)
    ensures chosen != null ==> chosen in m.connections && (chosen in old(m.connections) ==> old(chosen.numChannels) < 15)
    ensures Grown(old(ChannelsOf(m.connections)))
  {
    chosen := null;
    m.WithinBudget();
    hide m.ValidBut, Grown, ChannelsOf, Within;
    if e.localPort in m.openListeners {
      m.KnownListener(e.localPort);
      var t: Tunnel?;
      t, chosen := Call(m, m.openListeners[e.localPort], e.port1, e.port2, e.connected, e.outcome, endpoints);
    }
  }

  method Other(m: TunnelManager, e: Event, ghost endpoints: iset<Endpoint>)
    requires m.Valid() && !e.Caller?
    modifies m, m.pool, m.connections
    ensures m.Valid() && fresh(m.connections - old(m.connections))
    ensures old(Within(m, endpoints)) && Covered(e, false, endpoints) ==> Within(m, endpoints)
    ensures Grown(old(ChannelsOf(m.connections)))
  {
    m.WithinBudget();
    ghost var channels := ChannelsOf(m.connections);
    hide m.ValidBut, Grown, ChannelsOf, Within;
    match e {
      case Create(localPort, middleAddress, middleUser, destination, connects) =>
        CreateWithin(m, localPort, middleAddress, middleUser, destination, connects, endpoints);
      case Close(localPort, forceClose) =>
        CloseWithin(m, localPort, forceClose, endpoints);
      case SocketClosed(which) =>
        if which < |m.activeTunnels| {
          m.KnownTunnel(which);
          m.CloseSocket(m.activeTunnels[which]);
        }
      case CleanUpTimer =>
        Clean(m, endpoints);
    }
    assert Grown(channels);
  }

  method CreateWithin(m: TunnelManager, localPort: int, host: Address, user: User, destination: Address, connects: bool,
                      ghost endpoints: iset<Endpoint>)
    requires m.Valid()
    modifies m, m.pool
    ensures m.Valid() && fresh(m.connections - old(m.connections))
    ensures old(Within(m, endpoints)) && (host, user) in endpoints ==> Within(m, endpoints)
  {
    hide m.ValidBut, KeyOf;
    var _ := m.CreateTunnel(localPort, host, user, destination, connects);
  }

  method CloseWithin(m: TunnelManager, localPort: int, forceClose: bool, ghost endpoints: iset<Endpoint>)
    requires m.Valid()
    modifies m`openListeners, m`tunnelLink
    ensures m.Valid() && (old(Within(m, endpoints)) ==> Within(m, endpoints))
  {
    hide m.ValidBut;
    var _ := m.CloseTunnel(localPort, forceClose);
  }

  method Clean(m: TunnelManager, ghost endpoints: iset<Endpoint>)
    requires m.Valid()
    modifies m`openConnections, m`connections
    ensures m.Valid() && m.connections <= old(m.connections) && (old(Within(m, endpoints)) ==> Within(m, endpoints))
  {
    hide m.ValidBut;
    m.CleanUp();
  }

  /** Once a connection has used up its channels, or is broken, no caller is given it in any continuation of the run. */
  method Continue(m: TunnelManager, events: seq<Event>, ghost c: SSHConnection?, ghost endpoints: iset<Endpoint>)
    returns (ghost chosen: seq<SSHConnection?>)
    requires m.Valid() && (c != null ==> c in m.connections && c.numChannels == 15)
    modifies m, m.pool, m.connections
    ensures m.Valid() && |chosen| == |events| && (c != null ==> c.numChannels == 15 && c !in chosen)
  {
    chosen := [];
    for n := 0 to |events|
      invariant m.Valid() && fresh(m.connections - old(m.connections))
      invariant |chosen| == n && (c != null ==> c.numChannels == 15 && c !in chosen)
    {
      hide m.ValidBut;
      ghost var conn := Step(m, events[n], endpoints);
      chosen := chosen + [conn];
    }
  }

  /** A connection in order: its active channels are the tunnels that run over it, within its budget, and it is
      polled exactly while some tunnel does. */
  ghost predicate InOrder(m: TunnelManager, c: SSHConnection)
    reads m`activeTunnels, c
  {
    && 0 <= c.numActiveChannels <= c.numChannels <= 15
    && c.numActiveChannels == Users(m.activeTunnels, c)
    && (c.pending <==> exists i :: 0 <= i < |m.activeTunnels| && m.activeTunnels[i].connection == c)
  }

  /** Every run from the constructor on, whatever the events: the load is conserved, every connection is in order,
      and no tunnel runs over a deleted one; and if all events keep to the endpoints, so do links and connections. */
  method Run(startLoads: seq<int>, managementLoad: int, events: seq<Event>, ghost endpoints: iset<Endpoint>)
    returns (m: TunnelManager)
    requires startLoads != []
    ensures m.Valid()
    ensures TotalWork(m.workers) ==
            Sum(startLoads) + 2 + m.listenersCreated + m.connectionsAttached + |m.activeTunnels|
    ensures forall c :: c in m.connections ==> InOrder(m, c)
    ensures forall t :: t in m.activeTunnels ==> t.connection in m.connections
    ensures (forall i :: 0 <= i < |events| ==> Covered(events[i], false, endpoints)) ==> Within(m, endpoints)
  {
    m := new TunnelManager(startLoads, managementLoad);
    for n := 0 to |events|
      invariant m.Valid() && fresh(m) && fresh(m.pool) && fresh(m.connections)
      invariant m.startWork == Sum(startLoads)
      invariant (forall i :: 0 <= i < n ==> Covered(events[i], false, endpoints)) ==> Within(m, endpoints)
    {
      hide m.ValidBut, Within;
      ghost var _ := Step(m, events[n], endpoints);
    }
    Reached(m);
  }

  /** What the invariant says. */
  lemma Reached(m: TunnelManager)
    requires m.Valid()
    ensures TotalWork(m.workers) == m.startWork + 2 + m.listenersCreated + m.connectionsAttached + |m.activeTunnels|
    ensures forall c :: c in m.connections ==> InOrder(m, c)
    ensures forall t :: t in m.activeTunnels ==> t.connection in m.connections
  {
    forall c | c in m.connections ensures InOrder(m, c) {
      ChannelAccounts(m, c);
    }
  }

  lemma ChannelAccounts(m: TunnelManager, c: SSHConnection)
    requires m.Valid() && c in m.connections
    ensures InOrder(m, c)
  {
    if i :| 0 <= i < |m.activeTunnels| && m.activeTunnels[i].connection == c {
      UsedConnection(m.activeTunnels, m.activeTunnels[i]);
    } else {
      UnusedConnection(m.activeTunnels, c);
    }
  }

  lemma ListenerRemoved(m: TunnelManager, localPort: int, before: map<int, SocketListener>)
    requires m.ListenerAdded(localPort, before) && localPort !in before
    ensures m.openListeners - {localPort} == before
  {
    assert m.openListeners - {localPort} == before;
  }

  /** Closing takes back the listener and the link, but none of the load. */
  method CreateThenClose(m: TunnelManager, localPort: int, host: Address, user: User, destination: Address, connects: bool)
    returns (result: int)
    requires m.Valid() && localPort !in m.openListeners
    modifies m, m.pool
    ensures m.Valid()
    ensures m.openListeners == old(m.openListeners) && m.tunnelLink == old(m.tunnelLink)
    ensures TotalWork(m.workers) ==
            old(TotalWork(m.workers)) + 1 + if connects && KeyOf(host, user) !in old(m.openConnections) then 1 else 0
  {
    m.UnlistenedPort(localPort);
    Reached(m);
    hide m.ValidBut, KeyOf, TotalWork, m.Served, m.OnlyAdded, m.ListenerAdded;
    result := m.CreateTunnel(localPort, host, user, destination, connects);
    if result == 0 {
      ListenerRemoved(m, localPort, old(m.openListeners));
      assert m.tunnelLink - {localPort} == old(m.tunnelLink);
      var _ := m.CloseTunnel(localPort, false);
    }
    Reached(m);
  }

  /** When the first attempt could not connect, the second answers that all is well without connecting, and
      leaves the port without a link. */
  method CreateTwice(m: TunnelManager, localPort: int, host: Address, user: User, destination: Address)
    returns (first: int, second: int)
    requires m.Valid() && localPort !in m.openListeners && KeyOf(host, user) !in m.openConnections
    modifies m, m.pool
    ensures first == -2 && second == 0
    ensures localPort in m.openListeners && localPort !in m.tunnelLink && m.connections == old(m.connections)
  {
    m.UnlistenedPort(localPort);
    first := m.CreateTunnel(localPort, host, user, destination, false);
    second := m.CreateTunnel(localPort, host, user, destination, true);
  }

  /** Any two endpoints with one key: the tunnel of the second runs over a connection to the first. */
  method SharedConnection(m: TunnelManager, port: int, host: Address, user: User, otherPort: int, other: Address,
                          otherUser: User, destination: Address)
    returns (tunnel: Tunnel?)
    requires m.Valid() && port !in m.openListeners && otherPort !in m.openListeners && port != otherPort
    requires KeyOf(host, user) !in m.openConnections && KeyOf(other, otherUser) == KeyOf(host, user)
    modifies m, m.pool, m.connections
    ensures otherPort in m.tunnelLink && m.tunnelLink[otherPort].host == other && m.tunnelLink[otherPort].user == otherUser
    ensures tunnel != null && tunnel.connection.host == host && tunnel.connection.user == user
  {
    hide m.ValidBut, KeyOf, LeastBusy, Shifted, m.LoadOf;
    var _ := m.CreateTunnel(port, host, user, destination, true);
    var _ := m.CreateTunnel(otherPort, other, otherUser, destination, true);
    m.KnownListener(otherPort);
    ghost var bucket := m.openConnections[KeyOf(host, user)];
    assert |bucket| == 1 && bucket[0].host == host && bucket[0].user == user && bucket[0].numChannels == 0;
    assert FirstUsable(bucket) == 0;
    ghost var w, c;
    tunnel, w, c := m.Accept(m.openListeners[otherPort], 0, 0, true, Opened);
  }

  // ---------- connections that stay and connections that go ----------

  /** A connection with channels left survives any number of clean-ups, in its bucket. */
  method CleanUps(m: TunnelManager, times: nat, ghost c: SSHConnection)
    requires m.Valid() && c in m.connections && c.numChannels < 15
    modifies m
    ensures m.Valid() && c in m.connections && c.numChannels == old(c.numChannels)
    ensures KeyOf(c.host, c.user) in m.openConnections && c in m.openConnections[KeyOf(c.host, c.user)]
  {
    for n := 0 to times
      invariant m.Valid() && c in m.connections && c.numChannels == old(c.numChannels)
    {
      hide m.ValidBut;
      m.CleanUp();
    }
  }

  /** So does one that was created and never used. */
  method CreatedSurvives(m: TunnelManager, localPort: int, host: Address, user: User, destination: Address, times: nat)
    returns (ghost c: SSHConnection)
    requires m.Valid() && localPort !in m.openListeners && KeyOf(host, user) !in m.openConnections
    modifies m, m.pool
    ensures m.Valid() && c in m.connections && c !in old(m.connections) && c.host == host && c.user == user
    ensures KeyOf(host, user) in m.openConnections && c in m.openConnections[KeyOf(host, user)]
  {
    hide m.ValidBut;
    var _ := m.CreateTunnel(localPort, host, user, destination, true);
    c :| c in m.connections && c !in old(m.connections) && c.host == host && c.user == user && c.numChannels == 0;
    CleanUps(m, times, c);
  }

  /** A caller whose channel could not be opened because the connection is broken: in no continuation is a caller given
      that connection again, and the next clean-up deletes it as soon as no tunnel runs over it. */
  method BrokenConnection(m: TunnelManager, listener: SocketListener, events: seq<Event>)
    returns (ghost conn: SSHConnection?, ghost chosen: seq<SSHConnection?>)
    requires m.Valid() && listener.localPort in m.openListeners && m.openListeners[listener.localPort] == listener
    modifies m, m.pool, m.connections
    ensures m.Valid() && |chosen| == |events|
    ensures conn != null ==> conn.numChannels == 15 && conn !in chosen
    ensures conn != null && Users(m.activeTunnels, conn) == 0 ==> conn !in m.connections
  {
    hide m.ValidBut;
    ghost var worker;
    var t: Tunnel?;
    t, worker, conn := m.Accept(listener, 0, 0, true, OpenFailed(false));
    chosen := Continue(m, events, conn, iset{});
    m.CleanUp();
  }

  lemma FirstIs(bucket: seq<SSHConnection>, i: nat)
    requires i < |bucket| && bucket[i].numChannels < 15 && forall k :: 0 <= k < i ==> bucket[k].numChannels >= 15
    ensures FirstUsable(bucket) == i
  {
    hide FirstUsable;
  }

  /** If only the channel could not be opened, the next caller at the port is given the same connection. */
  method SameConnectionAgain(m: TunnelManager, listener: SocketListener, outcome: ChannelOutcome)
    returns (ghost first: SSHConnection?, ghost second: SSHConnection?)
    requires m.Valid() && listener.localPort in m.openListeners && m.openListeners[listener.localPort] == listener
    requires outcome == NoChannel || outcome == OpenFailed(true)
    modifies m, m.pool, m.connections
    ensures m.Valid() && first == second
  {
    hide m.ValidBut, LeastBusy, Shifted, m.LoadOf, FirstUsable, Grown, KeyOf;
    ghost var worker;
    var t: Tunnel?;
    ghost var link := m.LinkAt(listener.localPort, 0, 0);
    ghost var i := FirstUsable(m.BucketOf(link.host, link.user));
    t, worker, first := m.Accept(listener, 0, 0, true, outcome);
    if first != null {
      FirstIs(m.BucketOf(link.host, link.user), i);
    }
    t, worker, second := m.Accept(listener, 0, 0, true, outcome);
  }
}
