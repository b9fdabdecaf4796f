/** What each command does to the server, spelled out: PROTOCOL.md and
    chatd/protocol/command.cpp. */
module RelayCommands {
  import opened Collections
  import opened Payloads
  import opened Replies
  import opened Outboxes
  import opened Rooms
  import opened Relay
  import opened RelayLaws

  /** The line of connection i, logged in as that user, is that command. */
  predicate Commands(s: State, i: nat, user: string, raw: string, kind: Kind, args: seq<string>) {
    && i < |s.sessions| && s.sessions[i].loggedIn && s.sessions[i].name == Some(user)
    && ParseLine(raw) == Accepted(Command(kind, args))
  }

  lemma CommandIsRun(s: State, i: nat, user: string, raw: string, junk: string, spare: bool,
                     kind: Kind, args: seq<string>)
    requires Commands(s, i, user, raw, kind, args)
    ensures |args| == Arity(kind)
    ensures Step(s, Reads(i, Some(raw), junk, spare))
         == var (t, now) := AfterCommand(s.table, s.sessions[i], user, kind, args);
            var fate := CommandFate(s.table, user, kind, args, spare);
            (if fate == Fine then State(t, s.sessions[i := now]) else s, fate)
  {
    hide ParseLine, AfterCommand, CommandFate;
  }

  /** The sessions, with one more reply queued for connection i. */
  function Replied(sessions: seq<Session>, i: nat, reply: Reply): seq<Session>
    requires i < |sessions|
  {
    sessions[i := sessions[i].(queue := sessions[i].queue + [StringLiteral(OfReply(reply))])]
  }

  // --------------------------------------------------------- subscribing

  /** `/subscribe` by somebody who is not in that channel: makes it, or joins it with the right
      password, last; and then it comes last on the user's own list. */
  lemma SubscribingJoins(s: State, i: nat, user: string, raw: string, junk: string, spare: bool,
                         name: string, password: string)
    requires GoodState(s) && Commands(s, i, user, raw, Subscribe, [name, password])
    requires !IsMember(s.table, user, name)
    requires name in s.table.rooms ==> s.table.rooms[name].password == password
    ensures var (after, fate) := Step(s, Reads(i, Some(raw), junk, spare));
            var accounts, rooms := s.table.accounts, s.table.rooms;
            && fate == Fine && user in accounts
            && after.table.rooms
               == rooms[name := Room(password, if name in rooms then rooms[name].members + [user] else [user])]
            && after.table.accounts
               == accounts[user := Account(accounts[user].password, accounts[user].joined + [name])]
            && after.sessions == Replied(s.sessions, i, if name in rooms then Joined else ChannelCreated)
  {
    assert GoodSession(s.table.accounts, s.sessions[i]);
    CommandIsRun(s, i, user, raw, junk, spare, Subscribe, [name, password]);
    hide Step, ParseLine, GoodState;
  }

  /** By anybody else, or with another password, it changes nothing. */
  lemma SubscribingFails(s: State, i: nat, user: string, raw: string, junk: string, spare: bool,
                         name: string, password: string)
    requires GoodState(s) && Commands(s, i, user, raw, Subscribe, [name, password])
    requires name in s.table.rooms
    requires user in s.table.rooms[name].members || s.table.rooms[name].password != password
    ensures Step(s, Reads(i, Some(raw), junk, spare))
         == (State(s.table, Replied(s.sessions, i, if user in s.table.rooms[name].members then AlreadyInChannel
                                                    else InvalidPassword)), Fine)
  {
    assert GoodSession(s.table.accounts, s.sessions[i]);
    CommandIsRun(s, i, user, raw, junk, spare, Subscribe, [name, password]);
    hide Step, ParseLine, GoodState;
  }

  // ------------------------------------------------------- unsubscribing

  /** The list has lost that one entry; the others stay in order. */
  ghost predicate HasLost(was: seq<string>, now: seq<string>, x: string) {
    exists k: nat | k < |was| :: was[k] == x && now == was[..k] + was[k + 1..]
  }

  lemma {:induction false} WithoutHasLost(was: seq<string>, x: string)
    requires x in was && NoDuplicates(was)
    ensures HasLost(was, Without(was, x), x) && x !in Without(was, x)
    ensures Without(was, x) == [] <==> was == [x]
  {
    var k: nat :| k < |was| && was[k] == x;
    WithoutAt(was, k);
    WithoutHolds(was, x);
    assert Removed(was, k) == was[..k] + was[k + 1..];
    assert |was| == 1 ==> was == [was[0]];
  }

  lemma LeavingTakesOut(t: Table, user: string, name: string)
    requires IsKept(t) && IsMember(t, user, name)
    ensures var after := Obey(t, user, DoUnsubscribe(name));
            && user in t.accounts
            && name in t.accounts[user].joined && NoDuplicates(t.accounts[user].joined)
            && after.accounts
               == t.accounts[user := Account(t.accounts[user].password, Without(t.accounts[user].joined, name))]
            && (name in after.rooms <==> exists v :: v != user && v in t.rooms[name].members)
            && (forall n | n != name :: n in after.rooms <==> n in t.rooms)
            && (forall n | n != name && n in t.rooms :: after.rooms[n] == t.rooms[n])
            && (name in after.rooms ==>
                  after.rooms[name].password == t.rooms[name].password
                  && HasLost(t.rooms[name].members, after.rooms[name].members, user))
    ensures var after := Obey(t, user, DoUnsubscribe(name));
            forall v, n :: IsMember(after, v, n) <==> IsMember(t, v, n) && !(v == user && n == name)
  {
    assert HasJoined(t, user, name);
    WithoutHasLost(t.rooms[name].members, user);
    WithoutHolds(t.rooms[name].members, user);
    OnlyMember(t.rooms[name].members, user);
    hide IsKept, Without, HasLost;
  }

  /** `/unsubscribe` by a member takes that user out of that channel, and nobody else out of any;
      the channel goes with its last member. */
  lemma UnsubscribingLeaves(s: State, i: nat, user: string, raw: string, junk: string, spare: bool, name: string)
    requires GoodState(s) && Commands(s, i, user, raw, Unsubscribe, [name])
    requires IsMember(s.table, user, name)
    ensures var (after, fate) := Step(s, Reads(i, Some(raw), junk, spare));
            var accounts, rooms := s.table.accounts, s.table.rooms;
            && fate == Fine && user in accounts
            && (exists joined :: HasLost(accounts[user].joined, joined, name)
                  && after.table.accounts == accounts[user := Account(accounts[user].password, joined)])
            && (name in after.table.rooms <==> exists v :: v != user && v in rooms[name].members)
            && (forall n | n != name :: n in after.table.rooms <==> n in rooms)
            && (forall n | n != name && n in rooms :: after.table.rooms[n] == rooms[n])
            && (name in after.table.rooms ==>
                  after.table.rooms[name].password == rooms[name].password
                  && HasLost(rooms[name].members, after.table.rooms[name].members, user))
            && after.sessions == Replied(s.sessions, i, Unsubscribed)
    ensures var after := Step(s, Reads(i, Some(raw), junk, spare)).0;
            forall v, n :: IsMember(after.table, v, n) <==> IsMember(s.table, v, n) && !(v == user && n == name)
  {
    CommandIsRun(s, i, user, raw, junk, spare, Unsubscribe, [name]);
    assert ReplyTo(s.table, user, DoUnsubscribe(name)) == Unsubscribed;
    LeavingTakesOut(s.table, user, name);
    WithoutHasLost(s.table.accounts[user].joined, name);
    hide Step, ParseLine, GoodState, Without, HasLost, Obey, ReplyTo, IsMember;
  }

  lemma OnlyMember(members: seq<string>, user: string)
    requires user in members && NoDuplicates(members)
    ensures members == [user] <==> forall v :: v in members ==> v == user
  {
    assert members[0] in members;
    if |members| > 1 {
      assert members[1] in members && members[0] != members[1];
    }
  }

  /** By anybody else it changes nothing. */
  lemma UnsubscribingFails(s: State, i: nat, user: string, raw: string, junk: string, spare: bool, name: string)
    requires GoodState(s) && Commands(s, i, user, raw, Unsubscribe, [name])
    requires !IsMember(s.table, user, name)
    ensures Step(s, Reads(i, Some(raw), junk, spare)) == (State(s.table, Replied(s.sessions, i, NotInChannel)), Fine)
  {
    assert GoodSession(s.table.accounts, s.sessions[i]);
    CommandIsRun(s, i, user, raw, junk, spare, Unsubscribe, [name]);
    hide Step, ParseLine, GoodState;
  }

  // ------------------------------------------------------------ deleting

  lemma DeletionIsRun(s: State, i: nat, user: string, raw: string, junk: string, spare: bool, name: string)
    requires GoodState(s) && Commands(s, i, user, raw, Delete, [name]) && IsMember(s.table, user, name)
    ensures user in s.table.accounts
    ensures Step(s, Reads(i, Some(raw), junk, spare))
         == if HitsItsRoom(s.table, user, name) then
              (State(Table(AllWithout(s.table.accounts, name), s.table.rooms - {name}),
                     Replied(s.sessions, i, ChannelDeleted)), Fine)
            else (s, WrongChannel)
  {
    assert GoodSession(s.table.accounts, s.sessions[i]);
    CommandIsRun(s, i, user, raw, junk, spare, Delete, [name]);
    hide Step, ParseLine, GoodState, AllWithout, HitsItsRoom;
  }

  /** `/delete` by a member: if the channel comes first on the list of every member, and the user
      has another channel or joined it last, it goes, with all its memberships and no others;
      otherwise it goes wrong. */
  lemma DeletingRemoves(s: State, i: nat, user: string, raw: string, junk: string, spare: bool, name: string)
    requires GoodState(s) && Commands(s, i, user, raw, Delete, [name])
    requires IsMember(s.table, user, name)
    ensures var accounts, rooms, members := s.table.accounts, s.table.rooms, s.table.rooms[name].members;
            var (after, fate) := Step(s, Reads(i, Some(raw), junk, spare));
            && user in accounts && members != []
            && fate == (if (forall m | m in members ::
                              m in accounts && accounts[m].joined != [] && accounts[m].joined[0] == name)
                           && (|accounts[user].joined| > 1 || members[|members| - 1] == user)
                        then Fine else WrongChannel)
            && (fate == Fine ==>
                  && after.table.rooms == rooms - {name}
                  && after.table.accounts.Keys == accounts.Keys
                  && (forall v | v in accounts ::
                        after.table.accounts[v].password == accounts[v].password
                        && if v in members then HasLost(accounts[v].joined, after.table.accounts[v].joined, name)
                           else after.table.accounts[v].joined == accounts[v].joined)
                  && after.sessions == Replied(s.sessions, i, ChannelDeleted))
  {
    DeletionIsRun(s, i, user, raw, junk, spare, name);
    DeletingTakesAway(s.table, name);
    hide Step, ParseLine, GoodState, Without, HasLost;
  }

  lemma DeletingTakesAway(t: Table, name: string)
    requires IsKept(t) && name in t.rooms
    ensures forall v | v in t.accounts ::
      var joined := t.accounts[v].joined;
      if v in t.rooms[name].members then HasLost(joined, Without(joined, name), name)
      else Without(joined, name) == joined
  {
    forall v | v in t.accounts
      ensures var joined := t.accounts[v].joined;
              if v in t.rooms[name].members then HasLost(joined, Without(joined, name), name)
              else Without(joined, name) == joined
    {
      assert IsMember(t, v, name) <==> HasJoined(t, v, name);
      if v in t.rooms[name].members {
        WithoutHasLost(t.accounts[v].joined, name);
      } else {
        WithoutAbsent(t.accounts[v].joined, name);
      }
    }
  }

  lemma DeletingFails(s: State, i: nat, user: string, raw: string, junk: string, spare: bool, name: string)
    requires GoodState(s) && Commands(s, i, user, raw, Delete, [name])
    requires !IsMember(s.table, user, name)
    ensures Step(s, Reads(i, Some(raw), junk, spare)) == (State(s.table, Replied(s.sessions, i, NotInChannel)), Fine)
  {
    assert GoodSession(s.table.accounts, s.sessions[i]);
    CommandIsRun(s, i, user, raw, junk, spare, Delete, [name]);
    hide Step, ParseLine, GoodState;
  }

  // ----------------------------------------------- listing, logging out

  /** What stands between the heading and the end of a list: the names in joining order, with a
      comma between any two; once the connection is terminating, the commas alone. */
  predicate AreListed(ps: seq<Outgoing>, members: seq<string>, leaving: bool) {
    if members == [] then ps == []
    else if leaving then
      |ps| == |members| - 1 && forall k | 0 <= k < |ps| :: ps[k] == StringLiteral(Comma)
    else
      && |ps| == 2 * |members| - 1
      && forall k | 0 <= k < |ps| :: ps[k] == if k % 2 == 0 then Buff(members[k / 2]) else StringLiteral(Comma)
  }

  lemma {:induction false} ListedSoFar(members: seq<string>, k: nat, leaving: bool)
    requires k < |members|
    ensures leaving ==> |Listed(members, k, leaving)| == k
    ensures leaving ==> forall j | 0 <= j < k :: Listed(members, k, leaving)[j] == StringLiteral(Comma)
    ensures !leaving ==> |Listed(members, k, leaving)| == 2 * k
    ensures !leaving ==> forall j | 0 <= j < 2 * k ::
      Listed(members, k, leaving)[j] == if j % 2 == 0 then Buff(members[j / 2]) else StringLiteral(Comma)
  {
    if k > 0 {
      ListedSoFar(members, k - 1, leaving);
    }
  }

  lemma AllAreListed(members: seq<string>, leaving: bool)
    ensures AreListed(Listed(members, |members|, leaving), members, leaving)
  {
    if members != [] {
      ListedSoFar(members, |members| - 1, leaving);
    }
  }

  /** `/list_users` by a member lists the channel, if the blocks have a byte to spare; by anybody
      else it is refused. It changes nothing. */
  lemma ListingLists(s: State, i: nat, user: string, raw: string, junk: string, spare: bool, name: string)
    requires Commands(s, i, user, raw, ListUsers, [name])
    ensures var me, (after, fate) := s.sessions[i], Step(s, Reads(i, Some(raw), junk, spare));
            if !IsMember(s.table, user, name) then
              fate == Fine && after == State(s.table, Replied(s.sessions, i, NotInChannel))
            else if !spare then fate == WritesPastBlock
            else
              fate == Fine
              && exists ps :: AreListed(ps, s.table.rooms[name].members, me.leaving)
                   && after == State(s.table, s.sessions[i := me.(
                        queue := me.queue + ([StringLiteral(UsersAre)] + ps + [StringLiteral(Newline)]))])
  {
    CommandIsRun(s, i, user, raw, junk, spare, ListUsers, [name]);
    hide Step, ParseLine;
    if IsMember(s.table, user, name) {
      AllAreListed(s.table.rooms[name].members, s.sessions[i].leaving);
      hide Listed, AreListed;
    }
  }

  /** `/logout` makes that connection leave, and changes nothing else. */
  lemma LoggingOutLeaves(s: State, i: nat, user: string, raw: string, junk: string, spare: bool)
    requires Commands(s, i, user, raw, Logout, [])
    ensures var me := s.sessions[i];
            Step(s, Reads(i, Some(raw), junk, spare))
            == (State(s.table, s.sessions[i := me.(leaving := true, queue := me.queue + [StringLiteral(Bye)])]), Fine)
  {
    CommandIsRun(s, i, user, raw, junk, spare, Logout, []);
    hide Step, ParseLine;
  }

  /** A line that is rejected is answered, and one that is `/` dereferences the null command. */
  lemma OtherLines(s: State, i: nat, raw: string, junk: string, spare: bool)
    requires i < |s.sessions| && s.sessions[i].loggedIn && s.sessions[i].name.Some?
    ensures var me, (after, fate) := s.sessions[i], Step(s, Reads(i, Some(raw), junk, spare));
            && (ParseLine(raw) == Rejected ==>
                  fate == Fine
                  && after == State(s.table, s.sessions[i := me.(
                       queue := me.queue + [StringLiteral(InvalidCommand)])]))
            && (ParseLine(raw) == Crashed ==> fate == NullCommand)
  {
    hide ParseLine;
  }
}
