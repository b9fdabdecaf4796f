/** The accounts and channels as their users know them, and what PROTOCOL.md says the channel
    commands do to them. */
module Rooms {
  import opened Collections
  import opened Replies

  /** A channel: its password, and the names in it in the order they joined. */
  datatype Room = Room(password: string, members: seq<string>)

  /** An account: its password, and its channels in the order it joined them. */
  datatype Account = Account(password: string, joined: seq<string>)

  type RoomMap = map<string, Room>
  type AccountMap = map<string, Account>

  datatype Table = Table(accounts: AccountMap, rooms: RoomMap)

  datatype Order = DoSubscribe(name: string, password: string) | DoUnsubscribe(name: string) | DoDelete(name: string)

  predicate IsMember(t: Table, user: string, name: string) {
    name in t.rooms && user in t.rooms[name].members
  }

  function ReplyTo(t: Table, user: string, order: Order): Reply {
    match order
    case DoSubscribe(name, password) =>
      if name !in t.rooms then ChannelCreated
      else if IsMember(t, user, name) then AlreadyInChannel
      else if t.rooms[name].password == password then Joined
      else InvalidPassword
    case DoUnsubscribe(name) => if IsMember(t, user, name) then Unsubscribed else NotInChannel
    case DoDelete(name) => if IsMember(t, user, name) then ChannelDeleted else NotInChannel
  }

  function RoomsAfter(t: Table, user: string, order: Order): RoomMap {
    match order
    case DoSubscribe(name, password) =>
      if name !in t.rooms then t.rooms[name := Room(password, [user])]
      else if IsMember(t, user, name) || t.rooms[name].password != password then t.rooms
      else t.rooms[name := Room(password, t.rooms[name].members + [user])]
    case DoUnsubscribe(name) =>
      if !IsMember(t, user, name) then t.rooms
      else
        var left := Without(t.rooms[name].members, user);
        if left == [] then t.rooms - {name} else t.rooms[name := Room(t.rooms[name].password, left)]
    case DoDelete(name) => if IsMember(t, user, name) then t.rooms - {name} else t.rooms
  }

  function AccountsAfter(t: Table, user: string, order: Order): AccountMap
    requires user in t.accounts
  {
    var account := t.accounts[user];
    match order
    case DoSubscribe(name, password) =>
      if ReplyTo(t, user, order) in {ChannelCreated, Joined}
      then t.accounts[user := Account(account.password, account.joined + [name])]
      else t.accounts
    case DoUnsubscribe(name) =>
      if IsMember(t, user, name) then t.accounts[user := Account(account.password, Without(account.joined, name))]
      else t.accounts
    case DoDelete(name) => if IsMember(t, user, name) then AllWithout(t.accounts, name) else t.accounts
  }

  /** The accounts once nobody is in that channel. */
  function AllWithout(accounts: AccountMap, name: string): AccountMap {
    map n | n in accounts :: Account(accounts[n].password, Without(accounts[n].joined, name))
  }

  /** What the protocol documentation says an order does. */
  function Obey(t: Table, user: string, order: Order): Table {
    if user in t.accounts then Table(AccountsAfter(t, user, order), RoomsAfter(t, user, order)) else t
  }

  predicate IsFirstOfAll(accounts: AccountMap, members: seq<string>, name: string) {
    forall m | m in members :: m in accounts && accounts[m].joined != [] && accounts[m].joined[0] == name
  }

  /** Whether the deletion as written does that: the channel comes first on the list of every
      member, and the issuing user has another channel or joined last. */
  predicate HitsItsRoom(t: Table, user: string, name: string) {
    && IsMember(t, user, name) && user in t.accounts
    && var members := t.rooms[name].members;
    && IsFirstOfAll(t.accounts, members, name)
    && (|t.accounts[user].joined| > 1 || members[|members| - 1] == user)
  }

  // ------------------------------------------------------------ what holds

  predicate HasJoined(t: Table, user: string, name: string) {
    user in t.accounts && name in t.accounts[user].joined
  }

  /** Membership is recorded on both sides alike and without duplicates, and no channel is
      empty. */
  ghost predicate IsKept(t: Table) {
    && (forall n | n in t.rooms :: t.rooms[n].members != [] && NoDuplicates(t.rooms[n].members))
    && (forall u | u in t.accounts :: NoDuplicates(t.accounts[u].joined))
    && (forall u, n :: IsMember(t, u, n) <==> HasJoined(t, u, n))
  }

  /** Every order of every user keeps it so. */
  lemma ObeyKeeps(t: Table, user: string, order: Order)
    requires IsKept(t) && user in t.accounts
    ensures IsKept(Obey(t, user, order))
  {
    match order
    case DoSubscribe(name, password) => JoiningKeeps(t, user, name, password);
    case DoUnsubscribe(name) => LeavingKeeps(t, user, name);
    case DoDelete(name) => DeletingKeeps(t, user, name);
  }

  lemma SameAccounts(t: Table, user: string, order: Order)
    requires user in t.accounts
    ensures Obey(t, user, order).accounts.Keys == t.accounts.Keys
    ensures forall u | u in t.accounts :: Obey(t, user, order).accounts[u].password == t.accounts[u].password
  {
  }

  lemma JoiningKeeps(t: Table, user: string, name: string, password: string)
    requires IsKept(t) && user in t.accounts
    ensures IsKept(Obey(t, user, DoSubscribe(name, password)))
  {
    var after := Obey(t, user, DoSubscribe(name, password));
    forall u, n
      ensures IsMember(after, u, n) <==> HasJoined(after, u, n)
    {
      assert IsMember(t, u, n) <==> HasJoined(t, u, n);
    }
    assert !IsMember(t, user, name) ==> !HasJoined(t, user, name);
  }

  lemma LeavingKeeps(t: Table, user: string, name: string)
    requires IsKept(t) && user in t.accounts
    ensures IsKept(Obey(t, user, DoUnsubscribe(name)))
  {
    if IsMember(t, user, name) {
      var after := Obey(t, user, DoUnsubscribe(name));
      WithoutHolds(t.rooms[name].members, user);
      WithoutHolds(t.accounts[user].joined, name);
      forall u, n
        ensures IsMember(after, u, n) <==> HasJoined(after, u, n)
      {
        assert IsMember(t, u, n) <==> HasJoined(t, u, n);
      }
    }
  }

  lemma DeletingKeeps(t: Table, user: string, name: string)
    requires IsKept(t) && user in t.accounts
    ensures IsKept(Obey(t, user, DoDelete(name)))
  {
    if IsMember(t, user, name) {
      var after := Obey(t, user, DoDelete(name));
      forall u | u in t.accounts
        ensures NoDuplicates(after.accounts[u].joined)
        ensures forall n :: n in after.accounts[u].joined <==> n in t.accounts[u].joined && n != name
      {
        WithoutHolds(t.accounts[u].joined, name);
      }
      forall u, n
        ensures IsMember(after, u, n) <==> HasJoined(after, u, n)
      {
        assert IsMember(t, u, n) <==> HasJoined(t, u, n);
      }
    }
  }
}
