/** The pool and its commands against the table of `Rooms`. */
module Subscriptions {
  import opened Collections
  import opened Pools
  import opened Replies
  import opened Rooms
  import opened Commands

  ghost function Names(users: seq<User>): seq<string> {
    seq(|users|, i requires 0 <= i < |users| => users[i].name)
  }

  ghost function ChannelNames(channels: seq<Channel>): seq<string> {
    seq(|channels|, i requires 0 <= i < |channels| => channels[i].name)
  }

  /** The two lists of the pool: the channels of its users and the users of its channels. */
  datatype Links = Links(lists: map<User, seq<Channel>>, members: map<Channel, seq<User>>)

  ghost function LinksOf(pool: ConnectionPool): Links
    reads pool, pool.users, pool.channels
  {
    Links(map u | u in pool.users :: u.channels, map c | c in pool.channels :: c.users)
  }

  lemma LinksAre(pool: ConnectionPool, l: Links)
    requires forall u | u in pool.users :: u in l.lists && l.lists[u] == u.channels
    requires forall u | u in l.lists :: u in pool.users
    requires forall c | c in pool.channels :: c in l.members && l.members[c] == c.users
    requires forall c | c in l.members :: c in pool.channels
    ensures LinksOf(pool) == l
  {
  }

  /** `Linked`, as a property of the two lists. */
  ghost predicate Agree(l: Links) {
    && (forall u, v | u in l.lists && v in l.lists && u.name == v.name :: u == v)
    && (forall c, d | c in l.members && d in l.members && c.name == d.name :: c == d)
    && (forall u | u in l.lists :: forall c | c in l.lists[u] :: c in l.members)
    && (forall c | c in l.members :: l.members[c] != [] && forall u | u in l.members[c] :: u in l.lists)
    && (forall u, c | u in l.lists && c in l.members :: u in l.members[c] <==> c in l.lists[u])
  }

  lemma LinkedAgree(pool: ConnectionPool)
    requires pool.Linked()
    ensures Agree(LinksOf(pool))
  {
    assert forall u, v | u in pool.users && v in pool.users && u.name == v.name :: u == v;
    assert forall c, d | c in pool.channels && d in pool.channels && c.name == d.name :: c == d;
  }

  /** The channels, under their names, are these rooms ... */
  ghost predicate RoomsShow(members: map<Channel, seq<User>>, rooms: RoomMap) {
    && (forall c | c in members :: c.name in rooms && rooms[c.name] == Room(c.password, Names(members[c])))
    && (forall n | n in rooms :: exists c :: c in members && c.name == n)
  }

  /** ... and the users these accounts. */
  ghost predicate AccountsShow(lists: map<User, seq<Channel>>, accounts: AccountMap) {
    && (forall u | u in lists :: u.name in accounts && accounts[u.name] == Account(u.password, ChannelNames(lists[u])))
    && (forall n | n in accounts :: exists u :: u in lists && u.name == n)
  }

  ghost predicate IsShown(l: Links, t: Table) {
    RoomsShow(l.members, t.rooms) && AccountsShow(l.lists, t.accounts)
  }

  ghost predicate Represents(pool: ConnectionPool, t: Table)
    reads pool, pool.users, pool.channels
  {
    IsShown(LinksOf(pool), t)
  }

  /** There is only one such table. */
  lemma OneTable(l: Links, t: Table, t': Table)
    requires IsShown(l, t) && IsShown(l, t')
    ensures t == t'
  {
    forall n
      ensures n in t.rooms <==> n in t'.rooms
      ensures n in t.rooms ==> t.rooms[n] == t'.rooms[n]
      ensures n in t.accounts <==> n in t'.accounts
      ensures n in t.accounts ==> t.accounts[n] == t'.accounts[n]
    {
    }
  }

  // ------------------------------------------------- names and their owners

  lemma IsNamed(l: Links, users: seq<User>, user: User)
    requires Agree(l) && user in l.lists && forall u | u in users :: u in l.lists
    ensures user.name in Names(users) <==> user in users
  {
    if user.name in Names(users) {
      var i :| 0 <= i < |users| && Names(users)[i] == user.name;
      assert users[i] in users;
    }
    if user in users {
      var i :| 0 <= i < |users| && users[i] == user;
      assert Names(users)[i] == user.name;
    }
  }

  lemma {:induction false} NamesWithout(l: Links, users: seq<User>, user: User)
    requires Agree(l) && user in l.lists && forall u | u in users :: u in l.lists
    ensures Names(Without(users, user)) == Without(Names(users), user.name)
  {
    if users != [] {
      NamesWithout(l, users[1..], user);
      assert users[0] in users;
      assert Names(users)[1..] == Names(users[1..]);
      assert Names([users[0]] + Without(users[1..], user)) == [users[0].name] + Names(Without(users[1..], user));
    }
  }

  lemma {:induction false} ChannelNamesWithout(l: Links, channels: seq<Channel>, c: Channel)
    requires Agree(l) && c in l.members && forall d | d in channels :: d in l.members
    ensures ChannelNames(Without(channels, c)) == Without(ChannelNames(channels), c.name)
  {
    if channels != [] {
      ChannelNamesWithout(l, channels[1..], c);
      assert channels[0] in channels;
      assert ChannelNames(channels)[1..] == ChannelNames(channels[1..]);
      assert ChannelNames([channels[0]] + Without(channels[1..], c))
          == [channels[0].name] + ChannelNames(Without(channels[1..], c));
    }
  }

  /** A user is on the table's list of a channel exactly when on the pool's. */
  lemma MemberKnown(l: Links, t: Table, user: User, c: Channel)
    requires Agree(l) && IsShown(l, t) && user in l.lists && c in l.members
    ensures IsMember(t, user.name, c.name) <==> c in l.lists[user]
  {
    IsNamed(l, l.members[c], user);
  }

  lemma ReplyKnown(l: Links, t: Table, user: User, name: string)
    requires Agree(l) && IsShown(l, t) && user in l.lists
    ensures IsMember(t, user.name, name) <==> exists c :: c in l.lists[user] && c.name == name
    ensures name in t.rooms <==> exists c :: c in l.members && c.name == name
    ensures forall c | c in l.members && c.name == name :: t.rooms[name].password == c.password
  {
    forall c | c in l.members && c.name == name
      ensures IsMember(t, user.name, name) <==> c in l.lists[user]
    {
      MemberKnown(l, t, user, c);
    }
  }

  // ------------------------------------- the commands, as changes of the lists

  lemma RoomChange(members: map<Channel, seq<User>>, rooms: RoomMap, c: Channel, users: seq<User>)
    requires RoomsShow(members, rooms)
    requires forall d | d in members && d.name == c.name :: d == c
    ensures RoomsShow(members[c := users], rooms[c.name := Room(c.password, Names(users))])
  {
    var now, after := members[c := users], rooms[c.name := Room(c.password, Names(users))];
    forall n | n in after
      ensures exists d :: d in now && d.name == n
    {
      if n == c.name {
        assert c in now;
      } else {
        var d :| d in members && d.name == n;
        assert d in now;
      }
    }
  }

  lemma RoomGoes(members: map<Channel, seq<User>>, rooms: RoomMap, c: Channel)
    requires RoomsShow(members, rooms) && c in members
    requires forall d | d in members && d.name == c.name :: d == c
    ensures RoomsShow(members - {c}, rooms - {c.name})
  {
    forall n | n in rooms - {c.name}
      ensures exists d :: d in members - {c} && d.name == n
    {
      var d :| d in members && d.name == n;
      assert d in members - {c};
    }
  }

  lemma AccountChange(lists: map<User, seq<Channel>>, accounts: AccountMap, u: User, channels: seq<Channel>)
    requires AccountsShow(lists, accounts)
    requires forall v | v in lists && v.name == u.name :: v == u
    ensures AccountsShow(lists[u := channels], accounts[u.name := Account(u.password, ChannelNames(channels))])
  {
    var now, after := lists[u := channels], accounts[u.name := Account(u.password, ChannelNames(channels))];
    forall n | n in after
      ensures exists v :: v in now && v.name == n
    {
      if n == u.name {
        assert u in now;
      } else {
        var v :| v in lists && v.name == n;
        assert v in now;
      }
    }
  }

  /** The user joins c, which may be new. */
  ghost function Joining(l: Links, user: User, c: Channel): Links
    requires user in l.lists
  {
    Links(l.lists[user := l.lists[user] + [c]], l.members[c := (if c in l.members then l.members[c] else []) + [user]])
  }

  lemma JoiningShows(l: Links, t: Table, user: User, c: Channel)
    requires Agree(l) && IsShown(l, t) && user in l.lists && c !in l.lists[user]
    requires forall d | d in l.members && d.name == c.name :: d == c
    ensures IsShown(Joining(l, user, c), Obey(t, user.name, DoSubscribe(c.name, c.password)))
  {
    var had, were := l.lists[user], if c in l.members then l.members[c] else [];
    assert Names(were + [user]) == Names(were) + [user.name];
    assert ChannelNames(had + [c]) == ChannelNames(had) + [c.name];
    assert Obey(t, user.name, DoSubscribe(c.name, c.password))
        == Table(t.accounts[user.name := Account(user.password, ChannelNames(had + [c]))],
                 t.rooms[c.name := Room(c.password, Names(were + [user]))]) by {
      ReplyKnown(l, t, user, c.name);
      assert Names([]) + [user.name] == [user.name];
    }
    RoomChange(l.members, t.rooms, c, were + [user]);
    AccountChange(l.lists, t.accounts, user, had + [c]);
  }

  ghost function Leaving(l: Links, user: User, c: Channel): Links
    requires user in l.lists && c in l.members
  {
    var left := Without(l.members[c], user);
    Links(l.lists[user := Without(l.lists[user], c)], if left == [] then l.members - {c} else l.members[c := left])
  }

  lemma LeavingShows(l: Links, t: Table, user: User, c: Channel)
    requires Agree(l) && IsShown(l, t) && user in l.lists && c in l.lists[user]
    ensures IsShown(Leaving(l, user, c), Obey(t, user.name, DoUnsubscribe(c.name)))
  {
    var left := Without(l.members[c], user);
    MemberKnown(l, t, user, c);
    NamesWithout(l, l.members[c], user);
    ChannelNamesWithout(l, l.lists[user], c);
    AccountChange(l.lists, t.accounts, user, Without(l.lists[user], c));
    if left == [] {
      RoomGoes(l.members, t.rooms, c);
    } else {
      RoomChange(l.members, t.rooms, c, left);
      assert |Names(left)| == |left|;
    }
  }

  ghost function Deleting(l: Links, c: Channel): Links {
    Links(map u | u in l.lists :: Without(l.lists[u], c), l.members - {c})
  }

  lemma DeletingShows(l: Links, t: Table, user: User, c: Channel)
    requires Agree(l) && IsShown(l, t) && user in l.lists && c in l.lists[user]
    ensures IsShown(Deleting(l, c), Obey(t, user.name, DoDelete(c.name)))
  {
    assert Obey(t, user.name, DoDelete(c.name)) == Table(AllWithout(t.accounts, c.name), t.rooms - {c.name}) by {
      MemberKnown(l, t, user, c);
    }
    assert RoomsShow(Deleting(l, c).members, t.rooms - {c.name}) by {
      RoomGoes(l.members, t.rooms, c);
    }
    AllListsChange(l, t.accounts, c);
  }

  lemma AllListsChange(l: Links, accounts: AccountMap, c: Channel)
    requires Agree(l) && AccountsShow(l.lists, accounts) && c in l.members
    ensures AccountsShow(Deleting(l, c).lists, AllWithout(accounts, c.name))
  {
    var now, after := Deleting(l, c).lists, AllWithout(accounts, c.name);
    forall u | u in now
      ensures u.name in after && after[u.name] == Account(u.password, ChannelNames(now[u]))
    {
      ChannelNamesWithout(l, l.lists[u], c);
    }
    forall n | n in after
      ensures exists u :: u in now && u.name == n
    {
      var u :| u in l.lists && u.name == n;
      assert u in now;
    }
  }

  // ---------------------------------------------- the commands, one by one

  method SubscribeSeen(pool: ConnectionPool, user: User, name: string, password: string)
    returns (reply: Reply, joined: Option<Channel>)
    requires pool.Linked() && user in pool.users
    modifies pool`channels, user`channels, pool.channels
    ensures pool.Linked()
    ensures forall c | c in pool.channels :: c in old(pool.channels) || fresh(c)
    ensures IsAnswered(old(user.channels), old(pool.channels), name, password, reply, joined)
    ensures LinksOf(pool)
      == if joined.Some? then Joining(old(LinksOf(pool)), user, joined.value) else old(LinksOf(pool))
  {
    hide ConnectionPool.Linked;
    ghost var l := LinksOf(pool);
    reply, joined := Subscribe(pool, user, name, password);
    if joined.Some? {
      LinksAre(pool, Joining(l, user, joined.value));
    } else {
      LinksAre(pool, l);
    }
  }

  method SubscribeObeys(pool: ConnectionPool, user: User, name: string, password: string, ghost t: Table)
    returns (reply: Reply)
    requires pool.Linked() && user in pool.users && Represents(pool, t)
    modifies pool`channels, user`channels, pool.channels
    ensures pool.Linked()
    ensures forall c | c in pool.channels :: c in old(pool.channels) || fresh(c)
    ensures Represents(pool, Obey(t, user.name, DoSubscribe(name, password)))
    ensures reply == ReplyTo(t, user.name, DoSubscribe(name, password))
  {
    hide ConnectionPool.Linked;
    ghost var l, channels := LinksOf(pool), pool.channels;
    LinkedAgree(pool);
    var joined;
    reply, joined := SubscribeSeen(pool, user, name, password);
    SubscribedShows(l, t, user, channels, name, password, reply, joined);
  }

  lemma SubscribedShows(l: Links, t: Table, user: User, channels: seq<Channel>, name: string, password: string,
                        reply: Reply, joined: Option<Channel>)
    requires Agree(l) && IsShown(l, t) && user in l.lists
    requires (forall c | c in channels :: c in l.members) && forall c | c in l.members :: c in channels
    requires IsAnswered(l.lists[user], channels, name, password, reply, joined)
    ensures reply == ReplyTo(t, user.name, DoSubscribe(name, password))
    ensures IsShown(if joined.Some? then Joining(l, user, joined.value) else l,
                    Obey(t, user.name, DoSubscribe(name, password)))
  {
    ReplyKnown(l, t, user, name);
    if joined.Some? {
      JoiningShows(l, t, user, joined.value);
    }
  }

  ghost predicate IsFirstOfLists(lists: map<User, seq<Channel>>, users: seq<User>, c: Channel) {
    forall u | u in users :: u in lists && lists[u] != [] && lists[u][0] == c
  }

  /** `DeleteHitsItsChannel`, on the two lists. */
  ghost predicate Hits(l: Links, user: User, c: Channel)
    requires user in l.lists && c in l.members
  {
    && IsFirstOfLists(l.lists, l.members[c], c)
    && (|l.lists[user]| > 1 || (l.members[c] != [] && l.members[c][|l.members[c]| - 1] == user))
  }

  lemma OwnChannels(pool: ConnectionPool, user: User)
    requires pool.Linked() && user in pool.users
    ensures forall c | c in user.channels :: c in pool.channels
    ensures forall c | c in user.channels :: DeleteHitsItsChannel(user, c) <==> Hits(LinksOf(pool), user, c)
  {
    assert forall c | c in user.channels :: c in pool.channels && forall m | m in c.users :: m in pool.users;
  }

  method UnsubscribeSeen(pool: ConnectionPool, user: User, name: string)
    returns (reply: Reply, ghost left: Option<Channel>)
    requires pool.Linked() && user in pool.users
    modifies pool`channels, user`channels, pool.channels
    ensures pool.Linked()
    ensures forall c | c in pool.channels :: c in old(pool.channels)
    ensures reply == if exists c :: c in old(user.channels) && c.name == name then Unsubscribed else NotInChannel
    ensures left == None <==> reply == NotInChannel
    ensures left == None ==> LinksOf(pool) == old(LinksOf(pool))
    ensures left.Some? ==>
      var c := left.value;
      && c in old(pool.channels) && c in old(user.channels) && c.name == name
      && LinksOf(pool) == Leaving(old(LinksOf(pool)), user, c)
  {
    hide ConnectionPool.Linked;
    OwnChannels(pool, user);
    ghost var l, channels := LinksOf(pool), pool.channels;
    reply, left := Unsubscribe(pool, user, name);
    if left.Some? {
      WithoutHolds(channels, left.value);
      LinksAre(pool, Leaving(l, user, left.value));
    } else {
      LinksAre(pool, l);
    }
  }

  method UnsubscribeObeys(pool: ConnectionPool, user: User, name: string, ghost t: Table) returns (reply: Reply)
    requires pool.Linked() && user in pool.users && Represents(pool, t)
    modifies pool`channels, user`channels, pool.channels
    ensures pool.Linked()
    ensures forall c | c in pool.channels :: c in old(pool.channels)
    ensures Represents(pool, Obey(t, user.name, DoUnsubscribe(name)))
    ensures reply == ReplyTo(t, user.name, DoUnsubscribe(name))
  {
    hide ConnectionPool.Linked;
    ghost var l := LinksOf(pool);
    LinkedAgree(pool);
    ghost var left;
    reply, left := UnsubscribeSeen(pool, user, name);
    LeftShows(l, t, user, name, reply, left);
  }

  lemma LeftShows(l: Links, t: Table, user: User, name: string, reply: Reply, left: Option<Channel>)
    requires Agree(l) && IsShown(l, t) && user in l.lists
    requires reply == if exists c :: c in l.lists[user] && c.name == name then Unsubscribed else NotInChannel
    requires left == None <==> reply == NotInChannel
    requires left.Some? ==> left.value in l.lists[user] && left.value.name == name
    ensures reply == ReplyTo(t, user.name, DoUnsubscribe(name))
    ensures IsShown(if left.Some? then Leaving(l, user, left.value) else l, Obey(t, user.name, DoUnsubscribe(name)))
  {
    ReplyKnown(l, t, user, name);
    if left.Some? {
      LeavingShows(l, t, user, left.value);
    }
  }

  method DeleteSeen(pool: ConnectionPool, user: User, name: string)
    returns (reply: Reply, ghost deleted: Option<Channel>)
    requires pool.Linked() && user in pool.users
    modifies pool`channels, pool.users
    ensures pool.Linked() && pool.users == old(pool.users)
    ensures forall c | c in pool.channels :: c in old(pool.channels)
    ensures reply == if exists c :: c in old(user.channels) && c.name == name then ChannelDeleted else NotInChannel
    ensures deleted == None <==> reply == NotInChannel
    ensures deleted == None ==> LinksOf(pool) == old(LinksOf(pool))
    ensures deleted.Some? ==>
      deleted.value in old(user.channels) && deleted.value.name == name
      && LinksOf(pool) == Deleting(old(LinksOf(pool)), deleted.value)
  {
    hide ConnectionPool.Linked;
    ghost var l, channels := LinksOf(pool), pool.channels;
    reply, deleted := DeleteCorrected(pool, user, name);
    if deleted.Some? {
      WithoutHolds(channels, deleted.value);
      LinksAre(pool, Deleting(l, deleted.value));
    } else {
      LinksAre(pool, l);
    }
  }

  /** Deleting as intended. */
  method DeleteObeys(pool: ConnectionPool, user: User, name: string, ghost t: Table) returns (reply: Reply)
    requires pool.Linked() && user in pool.users && Represents(pool, t)
    modifies pool`channels, pool.users
    ensures pool.Linked() && pool.users == old(pool.users)
    ensures forall c | c in pool.channels :: c in old(pool.channels)
    ensures Represents(pool, Obey(t, user.name, DoDelete(name)))
    ensures reply == ReplyTo(t, user.name, DoDelete(name))
  {
    hide ConnectionPool.Linked;
    ghost var l := LinksOf(pool);
    LinkedAgree(pool);
    ghost var deleted;
    reply, deleted := DeleteSeen(pool, user, name);
    DeletedShows(l, t, user, name, reply, deleted);
  }

  lemma DeletedShows(l: Links, t: Table, user: User, name: string, reply: Reply, deleted: Option<Channel>)
    requires Agree(l) && IsShown(l, t) && user in l.lists
    requires reply == if exists c :: c in l.lists[user] && c.name == name then ChannelDeleted else NotInChannel
    requires deleted == None <==> reply == NotInChannel
    requires deleted.Some? ==> deleted.value in l.lists[user] && deleted.value.name == name
    ensures reply == ReplyTo(t, user.name, DoDelete(name))
    ensures IsShown(if deleted.Some? then Deleting(l, deleted.value) else l, Obey(t, user.name, DoDelete(name)))
  {
    ReplyKnown(l, t, user, name);
    if deleted.Some? {
      DeletingShows(l, t, user, deleted.value);
    }
  }

  lemma HitsAlike(l: Links, t: Table, user: User, c: Channel)
    requires Agree(l) && IsShown(l, t) && user in l.lists && c in l.lists[user]
    ensures Hits(l, user, c) <==> HitsItsRoom(t, user.name, c.name)
  {
    hide IsFirstOfLists, IsFirstOfAll;
    var users, members := l.members[c], t.rooms[c.name].members;
    MemberKnown(l, t, user, c);
    assert members == Names(users) && |users| > 0;
    FirstOfAll(l, t, users, c);
    assert |t.accounts[user.name].joined| == |l.lists[user]|;
    assert users[|users| - 1] == user <==> members[|members| - 1] == user.name by {
      assert users[|users| - 1] in users;
    }
  }

  lemma FirstOfAll(l: Links, t: Table, users: seq<User>, c: Channel)
    requires Agree(l) && IsShown(l, t) && c in l.members && forall u | u in users :: u in l.lists
    ensures IsFirstOfLists(l.lists, users, c) <==> IsFirstOfAll(t.accounts, Names(users), c.name)
  {
    forall u | u in users
      ensures l.lists[u] != [] && l.lists[u][0] == c
         <==> t.accounts[u.name].joined != [] && t.accounts[u.name].joined[0] == c.name
      ensures u.name in Names(users)
    {
      if l.lists[u] != [] {
        assert l.lists[u][0] in l.members;
      }
      IsNamed(l, users, u);
    }
    forall m | m in Names(users)
      ensures exists u :: u in users && u.name == m
    {
      var i :| 0 <= i < |users| && Names(users)[i] == m;
      assert users[i] in users;
    }
  }

  method DeleteSeenAsWritten(pool: ConnectionPool, user: User, name: string)
    returns (reply: Reply, ghost deleted: Option<Channel>)
    requires pool.Linked() && user in pool.users
    modifies pool`channels, pool.users
    ensures pool.users == old(pool.users)
    ensures forall c | c in pool.channels :: c in old(pool.channels)
    ensures reply == if exists c :: c in old(user.channels) && c.name == name then ChannelDeleted else NotInChannel
    ensures deleted == None <==> reply == NotInChannel
    ensures deleted == None ==> pool.Linked() && LinksOf(pool) == old(LinksOf(pool))
    ensures deleted.Some? ==>
      var c := deleted.value;
      && c in old(user.channels) && c.name == name && (old(DeleteHitsItsChannel(user, c)) <==> pool.Linked())
      && (pool.Linked() ==> LinksOf(pool) == Deleting(old(LinksOf(pool)), c))
  {
    hide ConnectionPool.Linked;
    ghost var l, channels := LinksOf(pool), pool.channels;
    reply, deleted := Delete(pool, user, name);
    if deleted == None {
      LinksAre(pool, l);
    } else {
      WithoutHolds(channels, deleted.value);
      if pool.Linked() {
        LinksAre(pool, Deleting(l, deleted.value));
      }
    }
  }

  /** Looks ahead. */
  method WillHit(pool: ConnectionPool, user: User, name: string) returns (hit: bool)
    requires pool.Linked() && user in pool.users
    ensures forall c | c in user.channels && c.name == name :: hit == DeleteHitsItsChannel(user, c)
    ensures (forall c | c in user.channels :: c.name != name) ==> hit
  {
    var own := FindOwn(user, name);
    if own == None {
      return true;
    }
    var channel := user.channels[own.value];
    assert channel in user.channels;
    OneChannelOfThatName(pool, user, channel);
    return DeleteHitsItsChannel(user, channel);
  }

  /** Deletes as written, having looked ahead. */
  method DeleteLooking(pool: ConnectionPool, user: User, name: string)
    returns (reply: Reply, hit: bool, ghost deleted: Option<Channel>)
    requires pool.Linked() && user in pool.users
    modifies pool`channels, pool.users
    ensures pool.users == old(pool.users)
    ensures forall c | c in pool.channels :: c in old(pool.channels)
    ensures reply == if exists c :: c in old(user.channels) && c.name == name then ChannelDeleted else NotInChannel
    ensures deleted == None <==> reply == NotInChannel
    ensures deleted.Some? ==>
      deleted.value in old(user.channels) && deleted.value.name == name
      && (hit <==> Hits(old(LinksOf(pool)), user, deleted.value))
    ensures hit <==> pool.Linked()
    ensures deleted == None ==> hit
    ensures hit ==>
      LinksOf(pool) == if deleted.Some? then Deleting(old(LinksOf(pool)), deleted.value) else old(LinksOf(pool))
  {
    hide ConnectionPool.Linked, Hits;
    OwnChannels(pool, user);
    hit := WillHit(pool, user, name);
    reply, deleted := DeleteSeenAsWritten(pool, user, name);
  }

  lemma DeletedAsWritten(l: Links, t: Table, user: User, name: string,
                         reply: Reply, hit: bool, deleted: Option<Channel>)
    requires Agree(l) && IsShown(l, t) && user in l.lists
    requires reply == if exists c :: c in l.lists[user] && c.name == name then ChannelDeleted else NotInChannel
    requires deleted == None <==> reply == NotInChannel
    requires deleted.Some? ==> deleted.value in l.lists[user] && deleted.value.name == name
    requires if deleted.Some? then hit <==> Hits(l, user, deleted.value) else hit
    ensures reply == ReplyTo(t, user.name, DoDelete(name))
    ensures hit <==> (reply == ChannelDeleted ==> HitsItsRoom(t, user.name, name))
    ensures IsShown(if deleted.Some? then Deleting(l, deleted.value) else l, Obey(t, user.name, DoDelete(name)))
  {
    DeletedShows(l, t, user, name, reply, deleted);
    if deleted.Some? {
      HitsAlike(l, t, user, deleted.value);
    }
  }

  /** Deleting as written. `hit` tells whether that was the deletion intended; if not, the two
      lists disagree afterwards. */
  method DeleteAsWritten(pool: ConnectionPool, user: User, name: string, ghost t: Table)
    returns (reply: Reply, hit: bool)
    requires pool.Linked() && user in pool.users && Represents(pool, t)
    modifies pool`channels, pool.users
    ensures pool.users == old(pool.users)
    ensures forall c | c in pool.channels :: c in old(pool.channels)
    ensures reply == ReplyTo(t, user.name, DoDelete(name))
    ensures hit <==> (reply == ChannelDeleted ==> HitsItsRoom(t, user.name, name))
    ensures hit ==> pool.Linked() && Represents(pool, Obey(t, user.name, DoDelete(name)))
    ensures !hit ==> !pool.Linked()
  {
    hide ConnectionPool.Linked;
    ghost var l := LinksOf(pool);
    LinkedAgree(pool);
    ghost var deleted;
    reply, hit, deleted := DeleteLooking(pool, user, name);
    DeletedAsWritten(l, t, user, name, reply, hit, deleted);
  }

  // ------------------------------------------------------------ whole runs

  ghost function ObeyAll(t: Table, orders: seq<(User, Order)>): Table {
    if orders == [] then t
    else
      var (user, order) := orders[|orders| - 1];
      Obey(ObeyAll(t, orders[..|orders| - 1]), user.name, order)
  }

  lemma OneOrderMore(t: Table, orders: seq<(User, Order)>, user: User, order: Order)
    ensures ObeyAll(t, orders + [(user, order)]) == Obey(ObeyAll(t, orders), user.name, order)
  {
    assert (orders + [(user, order)])[..|orders|] == orders;
  }

  /** No run leaves a channel empty, or recorded on one side only. */
  lemma {:induction false} RunKeeps(t: Table, orders: seq<(User, Order)>)
    requires IsKept(t)
    ensures IsKept(ObeyAll(t, orders))
  {
    if orders != [] {
      var before := ObeyAll(t, orders[..|orders| - 1]);
      var (user, order) := orders[|orders| - 1];
      RunKeeps(t, orders[..|orders| - 1]);
      if user.name in before.accounts {
        ObeyKeeps(before, user.name, order);
      }
    }
  }

  method Follow(pool: ConnectionPool, user: User, order: Order, ghost t: Table) returns (reply: Reply)
    requires pool.Linked() && user in pool.users && Represents(pool, t)
    modifies pool, pool.users, pool.channels
    ensures pool.Linked() && pool.users == old(pool.users)
    ensures forall c | c in pool.channels :: c in old(pool.channels) || fresh(c)
    ensures Represents(pool, Obey(t, user.name, order))
    ensures reply == ReplyTo(t, user.name, order)
  {
    hide ConnectionPool.Linked, Represents;
    match order {
      case DoSubscribe(name, password) => reply := SubscribeObeys(pool, user, name, password, t);
      case DoUnsubscribe(name) => reply := UnsubscribeObeys(pool, user, name, t);
      case DoDelete(name) => reply := DeleteObeys(pool, user, name, t);
    }
  }

  /** Any sequence of orders by any users of the pool, deletion as intended, leaves the two lists
      in agreement and accounts and rooms as the documentation says. */
  method Run(pool: ConnectionPool, orders: seq<(User, Order)>, ghost t: Table)
    requires pool.Linked() && Represents(pool, t)
    requires forall i | 0 <= i < |orders| :: orders[i].0 in pool.users
    modifies pool, pool.users, pool.channels
    ensures pool.Linked() && pool.users == old(pool.users)
    ensures forall k | 0 <= k < |pool.channels| :: pool.channels[k] in old(pool.channels) || fresh(pool.channels[k])
    ensures Represents(pool, ObeyAll(t, orders))
  {
    hide ConnectionPool.Linked, Represents;
    if orders != [] {
      var n := |orders| - 1;
      Run(pool, orders[..n], t);
      ghost var channels := pool.channels;
      assert forall c | c in channels :: c in old(pool.channels) || fresh(c);
      var _ := Follow(pool, orders[n].0, orders[n].1, ObeyAll(t, orders[..n]));
      forall k | 0 <= k < |pool.channels|
        ensures pool.channels[k] in old(pool.channels) || fresh(pool.channels[k])
      {
        assert pool.channels[k] in pool.channels;
      }
    }
  }
}
