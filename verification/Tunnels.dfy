// The workers, the SSH connections and the tunnels (include/tunnels).
module Tunnels {
  import opened Endpoints

  class TunnelWorker {
    var amountOfWork: int

    constructor (amountOfWork: int)
      ensures this.amountOfWork == amountOfWork
    {
      this.amountOfWork := amountOfWork;
    }

    method AddWork()
      modifies this
      ensures amountOfWork == old(amountOfWork) + 1
    {
      amountOfWork := amountOfWork + 1;
    }

    method RemoveWork()
      modifies this
      ensures amountOfWork == old(amountOfWork) - 1
    {
      amountOfWork := amountOfWork - 1;
    }
  }

  const MAX_NUMBER_CHANNELS: int := 15

  /** What the SSH library answers when a channel is to be opened. */
  datatype ChannelOutcome = NoChannel | OpenFailed(connected: bool) | Opened

  /** The channels counted before and after a channel was asked for: a broken connection uses up its budget. */
  ghost predicate Counted(before: int, after: int, outcome: ChannelOutcome) {
    match outcome
    case Opened => after == before + 1
    case OpenFailed(connected) => after == if connected then before else 15
    case NoChannel => after == before
  }

  class SSHConnection {
    const host: Address
    const user: User
    var numChannels: int
    var numActiveChannels: int
    /** channel_to_socket_event exists, and is pending. */
    var hasEvent: bool
    var pending: bool

    constructor (host: Address, user: User)
      ensures this.host == host && this.user == user
      ensures numChannels == 0 && numActiveChannels == 0 && !hasEvent && !pending
    {
      this.host, this.user := host, user;
      numChannels, numActiveChannels, hasEvent, pending := 0, 0, false, false;
    }

    predicate CanCreateChannel()
      reads this
    {
      MAX_NUMBER_CHANNELS > numChannels
    }

    predicate CanBeRemoved()
      reads this
    {
      numActiveChannels < 1 && !CanCreateChannel()
    }

    /** The channel counters are in order, and the poll event is pending exactly while a channel
        is active. */
    ghost predicate Accounted(active: nat)
      reads this
    {
      && numActiveChannels == active <= numChannels <= MAX_NUMBER_CHANNELS
      && hasEvent && (pending <==> active > 0)
    }

    method DeactivatedChannel()
      modifies this
      ensures numChannels == old(numChannels) && hasEvent == old(hasEvent)
      ensures numActiveChannels == old(numActiveChannels) - 1
      ensures pending == (old(pending) && old(numActiveChannels) != 1)
    {
      numActiveChannels := numActiveChannels - 1;
      if numActiveChannels == 0 {
        pending := false;
      }
    }

    method SetPollCallBack()
      modifies this
      ensures hasEvent && !pending
      ensures numChannels == old(numChannels) && numActiveChannels == old(numActiveChannels)
    {
      hasEvent := true;
      pending := false;
    }

    method CreateEndPoint(outcome: ChannelOutcome) returns (ok: bool)
      requires hasEvent
      modifies this
      ensures ok <==> outcome == Opened
      ensures hasEvent
      ensures outcome == Opened ==> numChannels == old(numChannels) + 1
      ensures outcome == OpenFailed(false) ==> numChannels == 15
      ensures outcome == NoChannel || outcome == OpenFailed(true) ==> numChannels == old(numChannels)
      ensures numActiveChannels == old(numActiveChannels) + if ok then 1 else 0
      ensures pending == (old(pending) || (ok && old(numActiveChannels) == 0))
    {
      match outcome {
        case NoChannel =>
          return false;
        case OpenFailed(connected) =>
          if !connected {
            numChannels := MAX_NUMBER_CHANNELS;
          }
          return false;
        case Opened =>
          numChannels := numChannels + 1;
          if numActiveChannels == 0 {
            pending := true;
          }
          numActiveChannels := numActiveChannels + 1;
          return true;
      }
    }
  }

  /** LocalTunnelSSH with the container its close event carries. */
  class Tunnel {
    const connection: SSHConnection
    const worker: TunnelWorker

    constructor (connection: SSHConnection, worker: TunnelWorker)
      ensures this.connection == connection && this.worker == worker
    {
      this.connection, this.worker := connection, worker;
    }
  }

  // ---------- load of the workers ----------

  ghost predicate Distinct<T>(s: seq<T>) {
    forall i, j :: 0 <= i < j < |s| ==> s[i] != s[j]
  }

  ghost function Sum(s: seq<int>): int {
    if s == [] then 0 else s[0] + Sum(s[1..])
  }

  ghost function Loads(workers: seq<TunnelWorker>): (s: seq<int>)
    reads workers
    ensures |s| == |workers| && forall i :: 0 <= i < |s| ==> s[i] == workers[i].amountOfWork
  {
    seq(|workers|, i reads workers requires 0 <= i < |workers| => workers[i].amountOfWork)
  }

  ghost function TotalWork(workers: seq<TunnelWorker>): int
    reads workers
  {
    Sum(Loads(workers))
  }

  lemma {:induction false} SumOfUpdated(s: seq<int>, k: nat, x: int)
    requires k < |s|
    ensures Sum(s[k := x]) == Sum(s) - s[k] + x
  {
    if k == 0 {
      assert s[0 := x][1..] == s[1..];
    } else {
      assert s[k := x][1..] == s[1..][k - 1 := x];
      SumOfUpdated(s[1..], k - 1, x);
    }
  }

  /** addWork() or removeWork() on one of the workers changes the total by as much. */
  method ChangeWork(workers: seq<TunnelWorker>, w: TunnelWorker, more: bool)
    requires Distinct(workers) && w in workers
    modifies w
    ensures w.amountOfWork == old(w.amountOfWork) + if more then 1 else -1
    ensures TotalWork(workers) == old(TotalWork(workers)) + if more then 1 else -1
  {
    ghost var before := Loads(workers);
    ghost var k :| 0 <= k < |workers| && workers[k] == w;
    if more {
      w.AddWork();
    } else {
      w.RemoveWork();
    }
    assert Loads(workers) == before[k := w.amountOfWork];
    SumOfUpdated(before, k, w.amountOfWork);
  }

  function Without<T>(s: seq<T>, i: nat): (r: seq<T>)
    requires i < |s|
    ensures |r| == |s| - 1
  {
    s[..i] + s[i + 1..]
  }

  lemma {:induction false} SumWithout(s: seq<int>, i: nat)
    requires i < |s|
    ensures Sum(Without(s, i)) == Sum(s) - s[i]
  {
    if i == 0 {
      assert Without(s, 0) == s[1..];
    } else {
      assert Without(s, i)[1..] == Without(s[1..], i - 1);
      SumWithout(s[1..], i - 1);
    }
  }

  lemma MultisetWithout<T>(s: seq<T>, i: nat)
    requires i < |s|
    ensures multiset(Without(s, i)) == multiset(s) - multiset{s[i]}
  {
    assert s == s[..i] + [s[i]] + s[i + 1..];
  }

  lemma TotalWithout(workers: seq<TunnelWorker>, i: nat)
    requires i < |workers|
    ensures TotalWork(Without(workers, i)) == TotalWork(workers) - workers[i].amountOfWork
  {
    hide Sum;
    assert Loads(Without(workers, i)) == Without(Loads(workers), i);
    SumWithout(Loads(workers), i);
  }

  /** The total does not depend on the order of the workers. */
  lemma {:induction false} TotalWorkOfPermutation(a: seq<TunnelWorker>, b: seq<TunnelWorker>)
    requires multiset(a) == multiset(b)
    ensures TotalWork(a) == TotalWork(b)
    decreases |a|
  {
    assert |a| == |multiset(a)| && |b| == |multiset(b)|;
    if a == [] {
      assert b == [];
    } else {
      hide Sum, Loads, TotalWork, Without;
      assert a[0] in multiset(b);
      var i :| 0 <= i < |b| && b[i] == a[0];
      MultisetWithout(a, 0);
      MultisetWithout(b, i);
      TotalWorkOfPermutation(Without(a, 0), Without(b, i));
      TotalWithout(a, 0);
      TotalWithout(b, i);
    }
  }

  ghost predicate NonDecreasing(s: seq<int>) {
    forall i, j :: 0 <= i < j < |s| ==> s[i] <= s[j]
  }

  ghost predicate SortedByWork(workers: seq<TunnelWorker>)
    reads workers
  {
    NonDecreasing(Loads(workers))
  }

  function Inserted<T>(s: seq<T>, i: nat, x: T): seq<T>
    requires i <= |s|
  {
    s[..i] + [x] + s[i..]
  }

  lemma InsertedAt<T>(s: seq<T>, i: nat, x: T, k: nat)
    requires i <= |s| && k <= |s|
    ensures |Inserted(s, i, x)| == |s| + 1
    ensures Inserted(s, i, x)[k] == if k < i then s[k] else if k == i then x else s[k - 1]
  {
  }

  lemma InsertedKeepsOrder(s: seq<int>, i: nat, x: int)
    requires i <= |s| && NonDecreasing(s)
    requires i > 0 ==> s[i - 1] <= x
    requires i < |s| ==> x <= s[i]
    ensures NonDecreasing(Inserted(s, i, x))
  {
    hide Inserted;
    var r := Inserted(s, i, x);
    InsertedAt(s, i, x, 0);
    forall a, b | 0 <= a < b < |r| ensures r[a] <= r[b] {
      InsertedAt(s, i, x, a);
      InsertedAt(s, i, x, b);
    }
  }

  lemma InsertedWorker(workers: seq<TunnelWorker>, i: nat, w: TunnelWorker)
    requires i <= |workers|
    ensures multiset(Inserted(workers, i, w)) == multiset(workers) + multiset{w}
    ensures Loads(Inserted(workers, i, w)) == Inserted(Loads(workers), i, w.amountOfWork)
  {
    var low, high := workers[..i], workers[i..];
    assert workers == low + high;
    assert multiset(low + [w] + high) == multiset(low) + multiset{w} + multiset(high);
  }

  /** w put into its place behind the workers that are not busier. */
  method InsertByWork(sorted: seq<TunnelWorker>, w: TunnelWorker) returns (r: seq<TunnelWorker>)
    requires SortedByWork(sorted)
    ensures multiset(r) == multiset(sorted) + multiset{w} && SortedByWork(r)
  {
    hide Inserted, NonDecreasing, Loads;
    var i := |sorted|;
    ghost var loads := Loads(sorted);
    while i > 0 && sorted[i - 1].amountOfWork > w.amountOfWork
      invariant 0 <= i <= |sorted| == |loads|
      invariant i < |sorted| ==> loads[i] >= w.amountOfWork
    {
      i := i - 1;
    }
    r := Inserted(sorted, i, w);
    InsertedWorker(sorted, i, w);
    InsertedKeepsOrder(loads, i, w.amountOfWork);
  }

  /** The workers in ascending order of their load. */
  method SortByWork(workers: seq<TunnelWorker>) returns (sorted: seq<TunnelWorker>)
    ensures multiset(sorted) == multiset(workers) && SortedByWork(sorted)
  {
    sorted := [];
    for n := 0 to |workers|
      invariant multiset(sorted) == multiset(workers[..n]) && SortedByWork(sorted)
    {
      sorted := InsertByWork(sorted, workers[n]);
      assert workers[..n + 1] == workers[..n] + [workers[n]];
    }
    assert workers[..|workers|] == workers;
  }

  // ---------- users of a connection ----------

  /** How many of the tunnels run over connection c. */
  ghost function Users(tunnels: seq<Tunnel>, c: SSHConnection): nat {
    if tunnels == [] then 0
    else Users(tunnels[..|tunnels| - 1], c) + if tunnels[|tunnels| - 1].connection == c then 1 else 0
  }

  lemma {:induction false} UsersWithout(tunnels: seq<Tunnel>, i: nat, c: SSHConnection)
    requires i < |tunnels|
    ensures Users(Without(tunnels, i), c) == Users(tunnels, c) - if tunnels[i].connection == c then 1 else 0
  {
    var last := |tunnels| - 1;
    if i == last {
      assert tunnels[..i] + tunnels[i + 1..] == tunnels[..last];
    } else {
      var rest := tunnels[..i] + tunnels[i + 1..];
      assert rest[..|rest| - 1] == tunnels[..last][..i] + tunnels[..last][i + 1..];
      UsersWithout(tunnels[..last], i, c);
    }
  }

  /** A connection some tunnel runs over has a user. */
  lemma {:induction false} UsedConnection(tunnels: seq<Tunnel>, t: Tunnel)
    requires t in tunnels
    ensures Users(tunnels, t.connection) > 0
  {
    var last := |tunnels| - 1;
    if tunnels[last] != t {
      UsedConnection(tunnels[..last], t);
    }
  }

  lemma {:induction false} UnusedConnection(tunnels: seq<Tunnel>, c: SSHConnection)
    requires forall t :: t in tunnels ==> t.connection != c
    ensures Users(tunnels, c) == 0
  {
    if tunnels != [] {
      UnusedConnection(tunnels[..|tunnels| - 1], c);
    }
  }
}
