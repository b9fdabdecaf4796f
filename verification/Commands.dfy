/** Subscribing, unsubscribing and deleting: chatd/protocol/command.cpp. Each command is one
    atomic step. */
module Commands {
  import opened Collections
  import opened Pools
  import opened Replies

  /** Where the user's own list has a channel of that name. */
  method FindOwn(user: User, name: string) returns (at: Option<nat>)
    ensures at.Some? ==> at.value < |user.channels| && user.channels[at.value].name == name
    ensures at == None ==> forall c | c in user.channels :: c.name != name
  {
    for i := 0 to |user.channels|
      invariant forall k | 0 <= k < i :: user.channels[k].name != name
    {
      if user.channels[i].name == name {
        return Some(i);
      }
    }
    return None;
  }

  method Join(pool: ConnectionPool, user: User, channel: Channel)
    requires pool.Linked() && user in pool.users
    requires channel in pool.channels && channel !in user.channels
    modifies user`channels, channel`users
    ensures pool.Linked()
    ensures user.channels == old(user.channels) + [channel]
    ensures channel.users == old(channel.users) + [user]
  {
    user.channels := user.channels + [channel];
    channel.users := channel.users + [user];
  }

  /** The replies to a subscription, when the user has `own` of `all` the channels. */
  ghost predicate IsAnswered(own: seq<Channel>, all: seq<Channel>, name: string, password: string,
                             reply: Reply, joined: Option<Channel>)
  {
    && (joined.Some? <==> reply == Joined || reply == ChannelCreated)
    && (joined.Some? ==> joined.value.name == name && joined.value.password == password)
    && match reply
       case AlreadyInChannel => exists c :: c in own && c.name == name
       case InvalidPassword =>
         (forall c | c in own :: c.name != name) && exists c :: c in all && c.name == name && c.password != password
       case Joined => (forall c | c in own :: c.name != name) && joined.value in all
       case ChannelCreated => forall c | c in all :: c.name != name
       case _ => false
  }

  method Subscribe(pool: ConnectionPool, user: User, name: string, password: string)
    returns (reply: Reply, joined: Option<Channel>)
    requires pool.Linked() && user in pool.users
    modifies pool`channels, user`channels, pool.channels
    ensures pool.Linked()
    ensures IsAnswered(old(user.channels), old(pool.channels), name, password, reply, joined)
    ensures joined == None ==> user.channels == old(user.channels)
    ensures joined.Some? ==>
      joined.value in pool.channels && user.channels == old(user.channels) + [joined.value]
    ensures reply == Joined ==>
      pool.channels == old(pool.channels) && joined.value.users == old(joined.value.users) + [user]
    ensures reply == ChannelCreated ==>
      fresh(joined.value) && pool.channels == old(pool.channels) + [joined.value] && joined.value.users == [user]
    ensures joined == None ==> pool.channels == old(pool.channels)
    ensures forall c | c in pool.channels :: c in old(pool.channels) || fresh(c)
    ensures forall c | c in old(pool.channels) && joined != Some(c) :: c.users == old(c.users)
  {
    joined := None;
    var own := FindOwn(user, name);
    if own.Some? {
      return AlreadyInChannel, None;
    }
    var channel := pool.GetChannel(name);
    if channel != null {
      if password == channel.password {
        joined, reply := Some(channel), Joined;
        Join(pool, user, channel);
      } else {
        reply := InvalidPassword;
      }
    } else {
      reply := ChannelCreated;
      var created := Create(pool, user, name, password);
      joined := Some(created);
    }
  }

  method Create(pool: ConnectionPool, user: User, name: string, password: string) returns (joined: Channel)
    requires pool.Linked() && user in pool.users
    requires forall c | c in pool.channels :: c.name != name
    modifies pool`channels, user`channels
    ensures pool.Linked() && fresh(joined)
    ensures joined.name == name && joined.password == password && joined.users == [user]
    ensures user.channels == old(user.channels) + [joined]
    ensures pool.channels == old(pool.channels) + [joined]
  {
    joined := new Channel(name, password);
    var _ := pool.PushChannel(joined);
    assert forall c | c in pool.channels && c != joined :: c in old(pool.channels);
    user.channels := user.channels + [joined];
    joined.users := joined.users + [user];
  }

  /** Lines 80-87 of the source: drops the first entry with the user's name. */
  method DropUser(channel: Channel, name: string)
    modifies channel`users
    ensures (forall u | u in old(channel.users) :: u.name != name) ==> channel.users == old(channel.users)
    ensures (exists u :: u in old(channel.users) && u.name == name) ==>
      exists j: nat | j < |old(channel.users)| ::
        old(channel.users)[j].name == name && channel.users == Removed(old(channel.users), j)
  {
    for j := 0 to |channel.users|
      invariant channel.users == old(channel.users)
      invariant forall k | 0 <= k < j :: channel.users[k].name != name
    {
      if channel.users[j].name == name {
        channel.users := Removed(channel.users, j);
        return;
      }
    }
  }

  /** Lines 78-87 of the source: takes user and channel off each other's lists. */
  method Leave(pool: ConnectionPool, user: User, at: nat, channel: Channel)
    requires pool.Consistent() && user in pool.users
    requires at < |user.channels| && user.channels[at] == channel
    modifies user`channels, channel`users
    ensures pool.Consistent()
    ensures user.channels == Without(old(user.channels), channel)
    ensures channel.users == Without(old(channel.users), user)
  {
    WithoutAt(user.channels, at);
    WithoutHolds(user.channels, channel);
    WithoutHolds(channel.users, user);
    user.channels := Removed(user.channels, at);
    DropUser(channel, user.name);
    assert channel.users == Without(old(channel.users), user) by {
      var j: nat :| j < |old(channel.users)| && old(channel.users)[j].name == user.name
                    && channel.users == Removed(old(channel.users), j);
      SameName(pool.users, old(channel.users)[j], user);
      WithoutAt(old(channel.users), j);
    }
  }

  /** Lines 89-90 of the source. */
  method RemoveIfEmpty(pool: ConnectionPool, channel: Channel)
    requires pool.Consistent() && channel in pool.channels
    requires forall c | c in pool.channels && c != channel :: c.users != []
    modifies pool`channels
    ensures pool.Linked()
    ensures pool.channels == if channel.users == [] then Without(old(pool.channels), channel) else old(pool.channels)
  {
    if |channel.users| == 0 {
      WithoutHolds(pool.channels, channel);
      var _ := pool.RemoveChannel(channel.name);
    }
  }

  /** The channel goes when its last user does. Nobody else's membership changes. */
  method Unsubscribe(pool: ConnectionPool, user: User, name: string) returns (reply: Reply, ghost left: Option<Channel>)
    requires pool.Linked() && user in pool.users
    modifies pool`channels, user`channels, pool.channels
    ensures pool.Linked() && forall c | c in pool.channels :: c in old(pool.channels)
    ensures reply == if exists c :: c in old(user.channels) && c.name == name then Unsubscribed else NotInChannel
    ensures reply == NotInChannel ==> user.channels == old(user.channels) && pool.channels == old(pool.channels)
    ensures left == None <==> reply == NotInChannel
    ensures left.Some? ==>
      var c := left.value;
      && c in old(user.channels) && c.name == name
      && user.channels == Without(old(user.channels), c)
      && c.users == Without(old(c.users), user)
      && pool.channels == if c.users == [] then Without(old(pool.channels), c) else old(pool.channels)
    ensures forall c | c in old(pool.channels) && left != Some(c) :: c.users == old(c.users)
  {
    var own := FindOwn(user, name);
    if own == None {
      return NotInChannel, None;
    }
    var channel := user.channels[own.value];
    assert channel in user.channels;
    WithoutHolds(pool.channels, channel);
    Leave(pool, user, own.value, channel);
    RemoveIfEmpty(pool, channel);
    return Unsubscribed, Some(channel);
  }

  lemma SameName(users: seq<User>, u: User, v: User)
    requires DistinctUserNames(users) && u in users && v in users && u.name == v.name
    ensures u == v
  {
  }

  // ---------------------------------------------------------------- delete

  /** The channel is off every user's list and out of the pool; nothing else has changed. */
  twostate predicate IsDeleted(pool: ConnectionPool, channel: Channel)
    reads pool, pool.users
  {
    && pool.users == old(pool.users)
    && pool.channels == Without(old(pool.channels), channel)
    && forall u | u in pool.users :: u.channels == Without(old(u.channels), channel)
  }

  /** `Linked`, but for the channel that is about to go: it is on no user's list any more. */
  ghost predicate LinkedBut(pool: ConnectionPool, channel: Channel)
    reads pool, pool.users, pool.channels
  {
    && DistinctUserNames(pool.users)
    && DistinctChannelNames(pool.channels)
    && (forall u | u in pool.users :: NoDuplicates(u.channels) && forall c | c in u.channels :: c in pool.channels)
    && (forall c | c in pool.channels ::
          c.users != [] && NoDuplicates(c.users) && forall u | u in c.users :: u in pool.users)
    && (forall u, c | u in pool.users && c in pool.channels ::
          if c == channel then c !in u.channels else u in c.users <==> c in u.channels)
  }

  lemma {:induction false} WithoutKeepsDistinct(s: seq<Channel>, channel: Channel)
    requires DistinctChannelNames(s)
    ensures DistinctChannelNames(Without(s, channel))
  {
    if s != [] {
      WithoutKeepsDistinct(s[1..], channel);
      WithoutHolds(s[1..], channel);
      assert forall c | c in s[1..] :: c.name != s[0].name;
    }
  }

  /** Line 139 of the source. */
  method DropChannel(pool: ConnectionPool, channel: Channel)
    requires DistinctChannelNames(pool.channels) && channel in pool.channels
    modifies pool`channels
    ensures pool.channels == Without(old(pool.channels), channel) && channel !in pool.channels
    ensures old(LinkedBut(pool, channel)) ==> pool.Linked()
  {
    WithoutHolds(pool.channels, channel);
    var _ := pool.RemoveChannel(channel.name);
  }

  lemma SameChannel(channels: seq<Channel>, c: Channel, d: Channel)
    requires DistinctChannelNames(channels) && c in channels && d in channels && c.name == d.name
    ensures c == d
  {
  }

  /** Lines 129-136 of the source, with the scan bounded by the member's own list and the
      comparison made on that list's entry. */
  method TakeOff(channels: seq<Channel>, member: User, channel: Channel)
    requires DistinctChannelNames(channels) && channel in channels
    requires NoDuplicates(member.channels) && channel in member.channels
    requires forall c | c in member.channels :: c in channels
    modifies member`channels
    ensures member.channels == Without(old(member.channels), channel)
  {
    var at := FindOwn(member, channel.name);
    SameChannel(channels, member.channels[at.value], channel);
    WithoutAt(member.channels, at.value);
    member.channels := Removed(member.channels, at.value);
  }

  method TakeOffAll(pool: ConnectionPool, channel: Channel)
    requires pool.Linked() && channel in pool.channels
    modifies pool.users
    ensures forall u | u in pool.users :: u.channels == Without(old(u.channels), channel)
  {
    ghost var members := channel.users;
    for i := 0 to |channel.users|
      invariant forall k | 0 <= k < i :: members[k].channels == Without(old(members[k].channels), channel)
      invariant forall k | i <= k < |members| :: members[k].channels == old(members[k].channels)
      invariant forall u | u in pool.users && u !in members :: u.channels == old(u.channels)
    {
      TakeOff(pool.channels, channel.users[i], channel);
    }
    forall u | u in pool.users && u !in members
      ensures u.channels == Without(old(u.channels), channel)
    {
      WithoutAbsent(old(u.channels), channel);
    }
  }

  /** Lines 123-139 of the source, corrected. */
  method DeleteEverywhere(pool: ConnectionPool, channel: Channel)
    requires pool.Linked() && channel in pool.channels
    modifies pool`channels, pool.users
    ensures IsDeleted(pool, channel)
    ensures pool.Linked()
  {
    TakeOffAll(pool, channel);
    StrippedLists(pool, channel, map u | u in pool.users :: old(u.channels));
    DropChannel(pool, channel);
  }

  /** What deleting a channel is meant to do. */
  method DeleteCorrected(pool: ConnectionPool, user: User, name: string)
    returns (reply: Reply, ghost deleted: Option<Channel>)
    requires pool.Linked() && user in pool.users
    modifies pool`channels, pool.users
    ensures pool.Linked() && pool.users == old(pool.users)
    ensures forall c | c in pool.channels :: c in old(pool.channels)
    ensures reply == if exists c :: c in old(user.channels) && c.name == name then ChannelDeleted else NotInChannel
    ensures deleted == None <==> reply == NotInChannel
    ensures deleted == None ==>
      pool.channels == old(pool.channels) && forall u | u in pool.users :: u.channels == old(u.channels)
    ensures deleted.Some? ==>
      deleted.value in old(user.channels) && deleted.value.name == name && IsDeleted(pool, deleted.value)
  {
    deleted := None;
    var own := FindOwn(user, name);
    if own == None {
      return NotInChannel, None;
    }
    var channel := user.channels[own.value];
    assert channel in user.channels;
    WithoutHolds(pool.channels, channel);
    DeleteEverywhere(pool, channel);
    return ChannelDeleted, Some(channel);
  }

  /** When the command as written deletes its channel: exactly when that is the first entry of
      every member's list, and the issuing user has another channel or is the last member. */
  predicate DeleteHitsItsChannel(user: User, channel: Channel)
    reads user, channel, channel.users
  {
    && (forall m | m in channel.users :: m.channels != [] && m.channels[0] == channel)
    && (|user.channels| > 1 || (channel.users != [] && channel.users[|channel.users| - 1] == user))
  }

  lemma FirstEntry(s: seq<Channel>, c: Channel)
    requires NoDuplicates(s) && c in s
    ensures s[0] == c ==> s[1..] == Without(s, c)
    ensures s[0] != c ==> c in s[1..]
    ensures c !in Without(s, c)
  {
    WithoutHolds(s, c);
    if s[0] == c {
      WithoutAt(s, 0);
      assert Removed(s, 0) == s[1..];
    }
  }

  /** Lines 129-136 of the source as they stand: the scan compares the name of the deleted
      channel, not of the entry, and stops at the length of the issuing user's list. */
  method TakeOffAsWritten(bound: nat, member: User, channel: Channel, name: string)
    requires member.channels != []
    modifies member`channels
    ensures member.channels ==
      if bound > 0 && channel.name == name then old(member.channels)[1..] else old(member.channels)
  {
    for j := 0 to bound
      invariant member.channels == old(member.channels)
      invariant j > 0 ==> channel.name != name
    {
      if channel.name == name {
        member.channels := Removed(member.channels, j);
        assert member.channels == old(member.channels)[1..];
        return;
      }
    }
  }

  /** What the code leaves of the list of the k-th member, when the issuing user is member `own`
      with a list of length `had`: once that list has run empty, nothing is taken any more. */
  ghost function LeftAsWritten(was: seq<Channel>, had: nat, own: nat, k: nat): seq<Channel>
    requires was != []
  {
    if had > 1 || k <= own then was[1..] else was
  }

  /** Lines 125-137 of the source as they stand. */
  method TakeFirstEntries(pool: ConnectionPool, user: User, channel: Channel, name: string, ghost own: nat)
    requires pool.Linked() && user in pool.users
    requires channel in pool.channels && channel.name == name
    requires own < |channel.users| && channel.users[own] == user
    modifies pool.users
    ensures forall k | 0 <= k < |channel.users| :: old(channel.users[k].channels) != []
    ensures forall k | 0 <= k < |channel.users| ::
      channel.users[k].channels == LeftAsWritten(old(channel.users[k].channels), old(|user.channels|), own, k)
    ensures forall u | u in pool.users && u !in channel.users :: u.channels == old(u.channels)
  {
    ghost var members, had := channel.users, |user.channels|;
    assert forall m | m in members :: channel in m.channels;
    for i := 0 to |channel.users|
      invariant forall k | 0 <= k < i :: members[k].channels == LeftAsWritten(old(members[k].channels), had, own, k)
      invariant forall k | i <= k < |members| :: members[k].channels == old(members[k].channels)
      invariant forall u | u in pool.users && u !in members :: u.channels == old(u.channels)
      invariant |user.channels| == if i <= own then had else had - 1
    {
      TakeOffAsWritten(|user.channels|, channel.users[i], channel, name);
    }
  }

  /** The command as written. It does what deleting is meant to do exactly when
      `DeleteHitsItsChannel`; otherwise some member keeps the dead channel on its list. */
  method Delete(pool: ConnectionPool, user: User, name: string) returns (reply: Reply, ghost deleted: Option<Channel>)
    requires pool.Linked() && user in pool.users
    modifies pool`channels, pool.users
    ensures reply == if exists c :: c in old(user.channels) && c.name == name then ChannelDeleted else NotInChannel
    ensures deleted == None <==> reply == NotInChannel
    ensures deleted == None ==>
      && pool.Linked() && pool.channels == old(pool.channels)
      && forall u | u in pool.users :: u.channels == old(u.channels)
    ensures deleted.Some? ==> deleted.value in old(user.channels) && deleted.value.name == name
    ensures deleted.Some? ==>
      (old(DeleteHitsItsChannel(user, deleted.value)) <==> IsDeleted(pool, deleted.value))
    ensures deleted.Some? ==>
      (old(DeleteHitsItsChannel(user, deleted.value)) <==> pool.Linked())
    ensures deleted.Some? ==>
      user.channels == old(user.channels)[1..] && pool.channels == Without(old(pool.channels), deleted.value)
  {
    deleted := None;
    var at := FindOwn(user, name);
    if at == None {
      return NotInChannel, None;
    }
    var channel := user.channels[at.value];
    assert channel in user.channels;
    DeleteFirstEntries(pool, user, channel, name);
    return ChannelDeleted, Some(channel);
  }

  /** Lines 123-139 of the source as they stand. */
  method DeleteFirstEntries(pool: ConnectionPool, user: User, channel: Channel, name: string)
    requires pool.Linked() && user in pool.users
    requires channel in pool.channels && channel.name == name && channel in user.channels
    modifies pool`channels, pool.users
    ensures old(DeleteHitsItsChannel(user, channel)) ==> IsDeleted(pool, channel) && pool.Linked()
    ensures !old(DeleteHitsItsChannel(user, channel)) ==> !IsDeleted(pool, channel) && !pool.Linked()
    ensures user.channels == old(user.channels)[1..]
    ensures pool.channels == Without(old(pool.channels), channel)
  {
    StripFirstEntries(pool, user, channel, name);
    if old(DeleteHitsItsChannel(user, channel)) {
      StrippedLists(pool, channel, map u | u in pool.users :: old(u.channels));
    }
    DropChannel(pool, channel);
  }

  /** Lists that have lost the channel and nothing else. */
  lemma StrippedLists(pool: ConnectionPool, channel: Channel, was: map<User, seq<Channel>>)
    requires DistinctUserNames(pool.users) && DistinctChannelNames(pool.channels)
    requires forall u | u in pool.users :: u in was && NoDuplicates(was[u])
    requires forall u | u in pool.users :: forall c | c in was[u] :: c in pool.channels
    requires forall u | u in pool.users :: u.channels == Without(was[u], channel)
    requires forall c | c in pool.channels ::
      c.users != [] && NoDuplicates(c.users) && forall u | u in c.users :: u in pool.users
    requires forall u, c | u in pool.users && c in pool.channels :: u in c.users <==> c in was[u]
    ensures LinkedBut(pool, channel)
  {
    forall u | u in pool.users
      ensures NoDuplicates(u.channels)
      ensures forall c | c in u.channels :: c in was[u] && c != channel
      ensures forall c | c in was[u] && c != channel :: c in u.channels
    {
      WithoutHolds(was[u], channel);
    }
  }

  /** Either every list loses exactly the channel, or some member keeps it. */
  method StripFirstEntries(pool: ConnectionPool, user: User, channel: Channel, name: string)
    requires pool.Linked() && user in pool.users
    requires channel in pool.channels && channel.name == name && channel in user.channels
    modifies pool.users
    ensures old(DeleteHitsItsChannel(user, channel)) ==>
      forall u | u in pool.users :: u.channels == Without(old(u.channels), channel)
    ensures user.channels == old(user.channels)[1..]
    ensures !old(DeleteHitsItsChannel(user, channel)) ==>
      exists m :: m in channel.users && channel in m.channels && channel !in Without(old(m.channels), channel)
  {
    ghost var members := channel.users;
    ghost var own: nat :| own < |members| && members[own] == user;
    TakeFirstEntries(pool, user, channel, name, own);
    forall k | 0 <= k < |members|
      ensures channel !in Without(old(members[k].channels), channel)
      ensures var was := old(members[k].channels);
              if was[0] == channel then was[1..] == Without(was, channel) else channel in was[1..]
    {
      FirstEntry(old(members[k].channels), channel);
    }
    forall u | u in pool.users && u !in members
      ensures u.channels == Without(old(u.channels), channel)
    {
      WithoutAbsent(old(u.channels), channel);
    }
    if !old(DeleteHitsItsChannel(user, channel)) {
      if old(|user.channels|) <= 1 && own != |members| - 1 {
        assert channel in members[|members| - 1].channels;
      } else {
        ghost var k :| 0 <= k < |members| && old(members[k].channels)[0] != channel;
        assert channel in members[k].channels;
      }
    }
  }

  /** For example: a user who deletes a channel that is not the first on their list stays on the
      list of the dead channel and falls off that of the first one. */
  method DeleteTakesTheWrongChannel(pool: ConnectionPool, user: User, channel: Channel)
    requires pool.Linked() && user in pool.users
    requires channel in user.channels && user.channels[0] != channel
    modifies pool`channels, pool.users
    ensures channel !in pool.channels && channel in user.channels
    ensures old(user.channels[0]) in pool.channels && old(user.channels[0]) !in user.channels
    ensures user in old(user.channels[0]).users && !pool.Linked()
  {
    ghost var first := user.channels[0];
    assert first in pool.channels && user in first.users;
    OneChannelOfThatName(pool, user, channel);
    WithoutHolds(pool.channels, channel);
    var reply, deleted := Delete(pool, user, channel.name);
  }

  lemma OneChannelOfThatName(pool: ConnectionPool, user: User, channel: Channel)
    requires pool.Linked() && user in pool.users && channel in user.channels
    ensures forall c | c in user.channels && c.name == channel.name :: c == channel
  {
    forall c | c in user.channels && c.name == channel.name
      ensures c == channel
    {
      SameChannel(pool.channels, c, channel);
    }
  }
}
