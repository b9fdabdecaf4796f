/** Users, channels, connections and the tables that hold them:
    chatd/protocol/protocol.hpp and chatd/net/server/connection_pool.ipp. */
module Pools {
  import opened Collections

  class User {
    const name: string
    const password: string
    var channels: seq<Channel>

    constructor (name: string, password: string)
      ensures this.name == name && this.password == password && channels == []
    {
      this.name, this.password, this.channels := name, password, [];
    }
  }

  class Channel {
    const name: string
    const password: string
    var users: seq<User>

    constructor (name: string, password: string)
      ensures this.name == name && this.password == password && users == []
    {
      this.name, this.password, this.users := name, password, [];
    }
  }

  ghost predicate DistinctUserNames(users: seq<User>) {
    forall i, j | 0 <= i < j < |users| :: users[i].name != users[j].name
  }

  ghost predicate DistinctChannelNames(channels: seq<Channel>) {
    forall i, j | 0 <= i < j < |channels| :: channels[i].name != channels[j].name
  }

  /** The users and channels of `ConnectionPool`. */
  class ConnectionPool {
    var users: seq<User>
    var channels: seq<Channel>

    /** Names are unique, and the two lists that record who is in which channel agree: each is
        the other read backwards. A channel is in the pool only while someone is in it. */
    ghost predicate Linked()
      reads this, users, channels
    {
      && Consistent()
      && (forall c | c in channels :: c.users != [])
    }

    /** `Linked`, but for channels that may be empty. */
    ghost predicate Consistent()
      reads this, users, channels
    {
      && DistinctUserNames(users)
      && DistinctChannelNames(channels)
      && (forall u | u in users :: NoDuplicates(u.channels) && forall c | c in u.channels :: c in channels)
      && (forall c | c in channels :: NoDuplicates(c.users) && forall u | u in c.users :: u in users)
      && (forall u, c | u in users && c in channels :: u in c.users <==> c in u.channels)
    }

    constructor ()
      ensures users == [] && channels == [] && Linked()
    {
      users, channels := [], [];
    }

    method GetUser(name: string) returns (u: User?)
      ensures u != null ==> u in users && u.name == name
      ensures u == null ==> forall v | v in users :: v.name != name
    {
      for i := 0 to |users|
        invariant forall k | 0 <= k < i :: users[k].name != name
      {
        if users[i].name == name {
          return users[i];
        }
      }
      return null;
    }

    method GetChannel(name: string) returns (c: Channel?)
      ensures c != null ==> c in channels && c.name == name
      ensures c == null ==> forall d | d in channels :: d.name != name
    {
      for i := 0 to |channels|
        invariant forall k | 0 <= k < i :: channels[k].name != name
      {
        if channels[i].name == name {
          return channels[i];
        }
      }
      return null;
    }

    method PushUser(u: User) returns (ok: bool)
      modifies this`users
      ensures ok <==> forall v | v in old(users) :: v.name != u.name
      ensures users == if ok then old(users) + [u] else old(users)
    {
      for i := 0 to |users|
        invariant forall k | 0 <= k < i :: users[k].name != u.name
      {
        if users[i].name == u.name {
          return false;
        }
      }
      users := users + [u];
      return true;
    }

    method PushChannel(c: Channel) returns (ok: bool)
      modifies this`channels
      ensures ok <==> forall d | d in old(channels) :: d.name != c.name
      ensures channels == if ok then old(channels) + [c] else old(channels)
    {
      for i := 0 to |channels|
        invariant forall k | 0 <= k < i :: channels[k].name != c.name
      {
        if channels[i].name == c.name {
          return false;
        }
      }
      channels := channels + [c];
      return true;
    }

    method RemoveChannel(name: string) returns (ok: bool)
      requires DistinctChannelNames(channels)
      modifies this`channels
      ensures ok <==> exists c :: c in old(channels) && c.name == name
      ensures !ok ==> channels == old(channels)
      ensures forall c | c in old(channels) && c.name == name :: channels == Without(old(channels), c)
      ensures DistinctChannelNames(channels)
    {
      for i := 0 to |channels|
        invariant forall k | 0 <= k < i :: channels[k].name != name
      {
        if channels[i].name == name {
          WithoutAt(channels, i);
          channels := Removed(channels, i);
          return true;
        }
      }
      return false;
    }
  }
}
