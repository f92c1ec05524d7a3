// Address.hpp and User.hpp: the keys of the map of open connections, compared as the sources do.
module Endpoints {

  datatype Address = Address(host: string, port: int)

  datatype User = User(username: string, password: string)

  /** Range of size_t. */
  const SIZE_RANGE: nat := 0x1_0000_0000_0000_0000

  /** s1.host.size() + s1.port, in size_t. */
  function AddressWeight(a: Address): nat {
    (|a.host| + a.port) % SIZE_RANGE
  }

  function UserWeight(u: User): nat {
    (|u.username| + |u.password|) % SIZE_RANGE
  }

  /** operator< of std::tuple<Address, User>. */
  predicate TupleLess(a: (Address, User), b: (Address, User)) {
    AddressWeight(a.0) < AddressWeight(b.0)
    || (!(AddressWeight(b.0) < AddressWeight(a.0)) && UserWeight(a.1) < UserWeight(b.1))
  }

  /** What the map distinguishes two endpoints by. */
  type Key = (nat, nat)

  function KeyOf(host: Address, user: User): Key {
    (AddressWeight(host), UserWeight(user))
  }

  /** The comparison is a strict weak order, and std::map takes two endpoints for the same key
      exactly if their keys here are equal. */
  lemma MapComparesKeys(a: (Address, User), b: (Address, User), c: (Address, User))
    ensures !TupleLess(a, b) && !TupleLess(b, a) <==> KeyOf(a.0, a.1) == KeyOf(b.0, b.1)
    ensures KeyOf(a.0, a.1) == KeyOf(b.0, b.1) <==>
            && (|a.0.host| + a.0.port) % 18446744073709551616 == (|b.0.host| + b.0.port) % 18446744073709551616
            && (|a.1.username| + |a.1.password|) % 18446744073709551616 == (|b.1.username| + |b.1.password|) % 18446744073709551616
    ensures var x, y := (|a.0.host| + a.0.port) % 18446744073709551616, (|b.0.host| + b.0.port) % 18446744073709551616;
            TupleLess(a, b) <==> x < y || (x == y && (|a.1.username| + |a.1.password|) % 18446744073709551616
                                                     < (|b.1.username| + |b.1.password|) % 18446744073709551616)
    ensures !(TupleLess(a, b) && TupleLess(b, a))
    ensures TupleLess(a, b) && TupleLess(b, c) ==> TupleLess(a, c)
  {
  }

  /** The map is not keyed by the endpoint itself: every endpoint shares its key with another host. */
  lemma KeysCollide(host: Address, user: User)
    ensures exists other: Address :: other != host && KeyOf(other, user) == KeyOf(host, user)
  {
    var other := Address(host.host + "0", host.port - 1);
    assert other != host && KeyOf(other, user) == KeyOf(host, user);
  }
}
