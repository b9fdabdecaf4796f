/** Who receives a message: chatd/net/connection/handle_payload.cpp, lines 42-97, and
    `ConnectionPool::send_msg`. */
module Routing {
  import opened Collections
  import opened Pools
  import opened Outboxes
  import opened Replies

  /** The receiving half of `Connection`, and the thread-local variables of `handle_payload`.
      `outbox` is everything it has ever put into its transmit queue, which is the business of
      `Transmission`; `freed` tells that the buffers behind `username` and `password` are gone. */
  class Connection {
    var user: User?
    var authenticated: bool
    var newAccount: bool
    var username: Option<string>
    var password: Option<string>
    var freed: bool
    var isGracefullyTerminated: bool
    var outbox: seq<Outgoing>

    constructor ()
      ensures user == null && !authenticated && !newAccount && !freed && !isGracefullyTerminated
      ensures username == None && password == None && outbox == []
    {
      user, authenticated, newAccount, freed, isGracefullyTerminated := null, false, false, false, false;
      username, password, outbox := None, None, [];
    }

    method SendLiteral(literal: Literal)
      modifies this`outbox
      ensures outbox == old(outbox) + [StringLiteral(literal)]
    {
      outbox := outbox + [StringLiteral(literal)];
    }

    method Send(text: string)
      modifies this`outbox
      ensures outbox == if isGracefullyTerminated then old(outbox) else old(outbox) + [Buff(text)]
    {
      if isGracefullyTerminated {
        return;
      }
      outbox := outbox + [Buff(text)];
    }
  }

  /** Each connection of that user gets one copy. */
  method SendMsg(conns: seq<Connection>, name: string, p: Outgoing)
    requires NoDuplicates(conns)
    modifies conns`outbox
    ensures forall c | c in conns ::
      c.outbox == old(c.outbox) + Copies(p, if c.user != null && c.user.name == name then 1 else 0)
  {
    for i := 0 to |conns|
      invariant forall k | 0 <= k < i ::
        conns[k].outbox
          == old(conns[k].outbox) + Copies(p, if conns[k].user != null && conns[k].user.name == name then 1 else 0)
      invariant forall k | i <= k < |conns| :: conns[k].outbox == old(conns[k].outbox)
    {
      var conn := conns[i];
      if conn.user != null && conn.user.name == name {
        conn.outbox := conn.outbox + [p];
      }
    }
  }

  /** The connections belong to users of the pool. */
  ghost predicate Attached(pool: ConnectionPool, conns: seq<Connection>)
    reads pool, conns
  {
    && NoDuplicates(conns)
    && DistinctUserNames(pool.users)
    && forall c | c in conns :: c.user != null ==> c.user in pool.users
  }

  /** The connection is logged in as one of these users, but not as the sender. */
  predicate IsOther(c: Connection, sender: User, users: seq<User>)
    reads c
  {
    c.user != null && c.user != sender && c.user in users
  }

  /** The inner loops of lines 65-71 and 88-94: one copy to each connection of each member other
      than the sender. */
  method SendToOthers(pool: ConnectionPool, conns: seq<Connection>, sender: User, members: seq<User>, p: Outgoing)
    requires Attached(pool, conns) && sender in pool.users
    requires NoDuplicates(members) && forall u | u in members :: u in pool.users
    modifies conns`outbox
    ensures forall c | c in conns ::
      c.outbox == old(c.outbox) + Copies(p, if IsOther(c, sender, members) then 1 else 0)
  {
    for j := 0 to |members|
      invariant forall c | c in conns ::
        c.outbox == old(c.outbox) + Copies(p, if IsOther(c, sender, members[..j]) then 1 else 0)
    {
      var member := members[j];
      SameNameSameUser(pool.users, member);
      SameNameSameUser(pool.users, sender);
      assert members[..j + 1] == members[..j] + [member];
      assert member !in members[..j];
      if sender.name != member.name {
        SendMsg(conns, member.name, p);
      }
    }
    assert members[..|members|] == members;
  }

  lemma SameNameSameUser(users: seq<User>, u: User)
    requires DistinctUserNames(users) && u in users
    ensures forall v | v in users && v.name == u.name :: v == u
  {
  }

  /** Line 44. */
  method RouteDirect(conns: seq<Connection>, to: string, p: Outgoing)
    requires NoDuplicates(conns)
    modifies conns`outbox
    ensures forall c | c in conns ::
      c.outbox == old(c.outbox) + Copies(p, if c.user != null && c.user.name == to then 1 else 0)
  {
    SendMsg(conns, to, p);
  }

  /** A group message reaches every connection of every other member, once, if the sender is a
      member; otherwise nobody, and the sender is told. */
  method RouteGroup(pool: ConnectionPool, conns: seq<Connection>, sender: User, to: string, p: Outgoing)
    returns (found: bool)
    requires pool.Linked() && Attached(pool, conns) && sender in pool.users
    modifies conns`outbox
    ensures found <==> exists ch :: ch in sender.channels && ch.name == to
    ensures !found ==> forall c | c in conns :: c.outbox == old(c.outbox)
    ensures forall ch | ch in sender.channels && ch.name == to ::
      forall c | c in conns ::
        c.outbox == old(c.outbox) + Copies(p, if IsOther(c, sender, ch.users) then 1 else 0)
  {
    var channel := pool.GetChannel(to);
    if channel == null {
      return false;
    }
    SameNameSameUser(pool.users, sender);
    found := false;
    for i := 0 to |channel.users|
      invariant sender !in channel.users[..i]
    {
      if sender.name == channel.users[i].name {
        found := true;
        break;
      }
    }
    assert found <==> sender in channel.users;
    if found {
      SendToOthers(pool, conns, sender, channel.users, p);
    }
  }

  /** In how many of these channels the user is. */
  ghost function ChannelsWith(channels: seq<Channel>, user: User): nat
    reads channels
  {
    if channels == [] then 0
    else
      var n := |channels| - 1;
      ChannelsWith(channels[..n], user) + if user in channels[n].users then 1 else 0
  }

  /** How often a walk over these channels of the sender meets the connection's user. */
  ghost function Walked(c: Connection, sender: User, channels: seq<Channel>): nat
    reads c, channels
  {
    if c.user == null || c.user == sender then 0 else ChannelsWith(channels, c.user)
  }

  /** The channels two users share. */
  ghost function Shared(u: User, v: User): set<Channel>
    reads u, v
  {
    set ch | ch in u.channels && ch in v.channels
  }

  lemma {:induction false} CountsShared(pool: ConnectionPool, channels: seq<Channel>, v: User)
    requires pool.Linked() && v in pool.users
    requires NoDuplicates(channels) && forall ch | ch in channels :: ch in pool.channels
    ensures ChannelsWith(channels, v) == |set ch | ch in channels && ch in v.channels|
  {
    CountsThose(channels, v, set ch | ch in channels && ch in v.channels);
  }

  lemma {:induction false} CountsThose(channels: seq<Channel>, v: User, those: set<Channel>)
    requires forall ch | ch in channels :: v in ch.users <==> ch in v.channels
    requires NoDuplicates(channels) && those == set ch | ch in channels && ch in v.channels
    ensures ChannelsWith(channels, v) == |those|
  {
    if channels == [] {
      assert those == {};
    } else {
      var before, last := channels[..|channels| - 1], channels[|channels| - 1];
      var rest := set ch | ch in before && ch in v.channels;
      CountsThose(before, v, rest);
      assert channels == before + [last] && last !in before;
      if last in v.channels {
        assert those == rest + {last};
      } else {
        assert those == rest;
      }
    }
  }

  lemma OwnChannelsFit(pool: ConnectionPool, user: User)
    requires pool.Linked() && user in pool.users
    ensures NoDuplicates(user.channels) && DistinctUserNames(pool.users)
    ensures forall ch | ch in user.channels ::
      ch in pool.channels && NoDuplicates(ch.users) && forall u | u in ch.users :: u in pool.users
  {
  }

  /** One round of the outer loop of lines 84-95. */
  method WalkOn(pool: ConnectionPool, conns: seq<Connection>, sender: User, ghost before: seq<Channel>, ch: Channel,
                p: Outgoing, ghost was: seq<seq<Outgoing>>)
    requires Attached(pool, conns) && sender in pool.users
    requires NoDuplicates(ch.users) && forall u | u in ch.users :: u in pool.users
    requires |was| == |conns|
    requires forall k | 0 <= k < |conns| ::
      conns[k].outbox == was[k] + Copies(p, Walked(conns[k], sender, before))
    modifies conns`outbox
    ensures forall k | 0 <= k < |conns| ::
      conns[k].outbox == was[k] + Copies(p, Walked(conns[k], sender, before + [ch]))
  {
    SendToOthers(pool, conns, sender, ch.users, p);
    forall k | 0 <= k < |conns|
      ensures conns[k].outbox == was[k] + Copies(p, Walked(conns[k], sender, before + [ch]))
    {
      assert conns[k] in conns && (before + [ch])[..|before|] == before;
      MoreCopies(was[k], p, Walked(conns[k], sender, before), if IsOther(conns[k], sender, ch.users) then 1 else 0);
    }
  }

  lemma MoreCopies(ps: seq<Outgoing>, p: Outgoing, n: nat, k: nat)
    ensures ps + Copies(p, n) + Copies(p, k) == ps + Copies(p, n + k)
  {
  }

  lemma CountsAll(pool: ConnectionPool, conns: seq<Connection>, sender: User)
    requires pool.Linked() && Attached(pool, conns) && sender in pool.users
    ensures forall c | c in conns && c.user != null :: ChannelsWith(sender.channels, c.user) == |Shared(sender, c.user)|
  {
    OwnChannelsFit(pool, sender);
    forall c | c in conns && c.user != null
      ensures ChannelsWith(sender.channels, c.user) == |Shared(sender, c.user)|
    {
      CountsShared(pool, sender.channels, c.user);
    }
  }

  /** A global message gives each connection of another user as many copies as the two users
      share channels, and the sender's own connections none. */
  method RouteGlobal(pool: ConnectionPool, conns: seq<Connection>, sender: User, p: Outgoing)
    returns (anyChannel: bool)
    requires pool.Linked() && Attached(pool, conns) && sender in pool.users
    modifies conns`outbox
    ensures anyChannel <==> sender.channels != []
    ensures forall c | c in conns ::
      c.outbox == old(c.outbox) + Copies(p, if c.user == null || c.user == sender then 0 else |Shared(sender, c.user)|)
  {
    OwnChannelsFit(pool, sender);
    CountsAll(pool, conns, sender);
    hide ConnectionPool.Linked, Shared;
    anyChannel := |sender.channels| > 0;
    var channels := sender.channels;
    ghost var was := seq(|conns|, k requires 0 <= k < |conns| reads conns => conns[k].outbox);
    for i := 0 to |channels|
      invariant forall k | 0 <= k < |conns| ::
        conns[k].outbox == was[k] + Copies(p, Walked(conns[k], sender, channels[..i]))
    {
      assert channels[i] in sender.channels;
      assert channels[..i + 1] == channels[..i] + [channels[i]];
      WalkOn(pool, conns, sender, channels[..i], channels[i], p, was);
    }
    assert channels[..|channels|] == channels;
  }
}
