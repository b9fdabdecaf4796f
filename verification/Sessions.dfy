/** Logging in and everything a line of input can do: `Connection::handle_payload` in
    chatd/net/connection/handle_payload.cpp, against the server of `Relay`. */
module Sessions {
  import opened Collections
  import opened Payloads
  import opened Messages
  import opened Outboxes
  import opened Replies
  import opened Rooms
  import opened Relay
  import opened Pools
  import opened Subscriptions
  import opened Routing

  function SessionOf(c: Connection): Session
    reads c
  {
    Session(c.username, c.password, c.authenticated, c.newAccount, c.isGracefullyTerminated, c.freed, c.outbox)
  }

  /** What holds of a connection between lines: it is authenticated exactly when it has a user,
      and that user is in the table and carries the name the connection entered. */
  ghost predicate GoodConnection(pool: ConnectionPool, c: Connection)
    reads pool, c
  {
    && (c.authenticated <==> c.user != null)
    && (c.user != null ==> c.user in pool.users && c.username == Some(c.user.name))
    && (c.password.Some? ==> c.username.Some?)
  }

  ghost predicate GoodServer(pool: ConnectionPool, conns: seq<Connection>)
    reads pool, pool.users, pool.channels, conns
  {
    && pool.Linked()
    && NoDuplicates(conns)
    && forall c | c in conns :: GoodConnection(pool, c)
  }

  /** The server is in that state. */
  ghost predicate Shows(pool: ConnectionPool, conns: seq<Connection>, s: State)
    reads pool, pool.users, pool.channels, conns
  {
    && Represents(pool, s.table)
    && |s.sessions| == |conns|
    && forall i | 0 <= i < |conns| :: s.sessions[i] == SessionOf(conns[i])
  }

  /** It is in no other. */
  lemma OneState(pool: ConnectionPool, conns: seq<Connection>, s: State, s': State)
    requires Shows(pool, conns, s) && Shows(pool, conns, s')
    ensures s == s'
  {
    OneTable(LinksOf(pool), s.table, s'.table);
    assert s.sessions == s'.sessions;
  }

  // ------------------------------------------------------------- logging in

  /** Lines 105-133 of the source: a line that should be the name. */
  method TakeName(c: Connection, line: string, junk: string)
    requires c.username == None
    modifies c`username, c`outbox
    ensures c.username == NameAfter(None, line)
    ensures c.outbox == old(c.outbox) + EntryReply(old(SessionOf(c)), line, junk)
  {
    var i := 0;
    var text := CText(line);
    var legal := true;
    while i < |line| && line[i] != NUL
      invariant i <= |text| && |text| <= |line|
      invariant legal && HasNameChars(text[..i])
      invariant i < |text| <==> i < |line| && line[i] != NUL
    {
      if !IsNameChar(line[i]) {
        assert line[i] == text[i];
        legal := false;
        break;
      }
      assert text[..i + 1] == text[..i] + [line[i]];
      i := i + 1;
    }
    assert legal ==> text[..i] == text;
    if !legal {
      c.SendLiteral(IllegalName);
    } else if i < 2 || i > 20 {
      c.SendLiteral(NameLength);
    } else {
      c.SendLiteral(Hello);
      c.Send(Copied(line, junk));
      c.SendLiteral(AskPassword);
      c.username := Some(text);
    }
  }

  /** Lines 134-147 of the source: a line that should be the password. */
  method TakePassword(c: Connection, line: string)
    requires c.username.Some? && c.password == None
    modifies c`password, c`outbox
    ensures c.password == PasswordAfter(c.username, None, line)
    ensures forall junk :: c.outbox == old(c.outbox) + EntryReply(old(SessionOf(c)), line, junk)
  {
    assert c.outbox + [] == c.outbox;
    if |CText(line)| != |line| {
      c.SendLiteral(PasswordHasNul);
    } else if |line| < 8 || |line| > 64 {
      assert CText(line) == line;
      c.SendLiteral(PasswordLength);
    } else {
      assert CText(line) == line;
      c.password := Some(line);
    }
  }

  method Enter(c: Connection, line: string, junk: string)
    modifies c`username, c`password, c`outbox
    ensures SessionOf(c) == Entered(old(SessionOf(c)), line, junk)
  {
    assert c.outbox + [] == c.outbox;
    if c.username == None {
      TakeName(c, line, junk);
    } else if c.password == None {
      TakePassword(c, line);
    }
  }

  /** The accounts are those of the users. */
  ghost predicate Knows(accounts: AccountMap, users: seq<User>) {
    && (forall u | u in users :: u.name in accounts && accounts[u.name].password == u.password)
    && (forall n | n in accounts :: exists u :: u in users && u.name == n)
  }

  lemma AccountsAreKnown(pool: ConnectionPool, t: Table)
    requires Represents(pool, t)
    ensures Knows(t.accounts, pool.users)
  {
    var lists := LinksOf(pool).lists;
    assert forall u | u in pool.users :: u in lists;
    assert forall u | u in lists :: u in pool.users;
  }

  lemma NobodyIsKnown(accounts: AccountMap, users: seq<User>)
    requires Knows(accounts, users)
    ensures accounts == map[] <==> |users| == 0
  {
    if |users| > 0 {
      assert users[0].name in accounts;
    } else {
      assert forall n | n in accounts :: false;
    }
  }

  /** What `Linked` and `LinksOf` say, of these users and channels. */
  ghost predicate AreLinked(users: seq<User>, channels: seq<Channel>)
    reads users, channels
  {
    && DistinctUserNames(users) && DistinctChannelNames(channels)
    && (forall u | u in users :: NoDuplicates(u.channels) && forall c | c in u.channels :: c in channels)
    && (forall c | c in channels :: c.users != [] && NoDuplicates(c.users) && forall u | u in c.users :: u in users)
    && (forall u, c | u in users && c in channels :: u in c.users <==> c in u.channels)
  }

  ghost function LinksBetween(users: seq<User>, channels: seq<Channel>): Links
    reads users, channels
  {
    Links(map u | u in users :: u.channels, map c | c in channels :: c.users)
  }

  lemma AsInPool(pool: ConnectionPool, t: Table)
    ensures AreLinked(pool.users, pool.channels) <==> pool.Linked()
    ensures IsShown(LinksBetween(pool.users, pool.channels), t) <==> Represents(pool, t)
  {
  }

  /** A user who is in no channel joins the table. */
  lemma NewUser(pool: ConnectionPool, users: seq<User>, u: User, t: Table)
    requires AreLinked(users, pool.channels) && IsShown(LinksBetween(users, pool.channels), t)
    requires pool.users == users + [u] && u !in users && u.channels == [] && u.name !in t.accounts
    ensures pool.Linked() && Represents(pool, Table(t.accounts[u.name := Account(u.password, [])], t.rooms))
  {
    hide AreLinked, ConnectionPool.Linked;
    var l := LinksBetween(users, pool.channels);
    NewName(l, t, u);
    NewUserIsLinked(pool, users, u);
    NewUserIsSeen(pool, users, u);
    hide LinksBetween, LinksOf;
    AccountChange(l.lists, t.accounts, u, []);
    assert ChannelNames([]) == [];
  }

  lemma NewName(l: Links, t: Table, u: User)
    requires IsShown(l, t) && u.name !in t.accounts
    ensures forall v | v in l.lists :: v.name != u.name
  {
  }

  lemma NewUserIsLinked(pool: ConnectionPool, users: seq<User>, u: User)
    requires AreLinked(users, pool.channels) && pool.users == users + [u] && u !in users && u.channels == []
    requires forall v | v in LinksBetween(users, pool.channels).lists :: v.name != u.name
    ensures pool.Linked()
  {
    assert forall v | v in users :: v in LinksBetween(users, pool.channels).lists;
    assert u in pool.users;
  }

  lemma NewUserIsSeen(pool: ConnectionPool, users: seq<User>, u: User)
    requires pool.users == users + [u] && u.channels == []
    ensures var l := LinksBetween(users, pool.channels); LinksOf(pool) == Links(l.lists[u := []], l.members)
  {
    var l := LinksBetween(users, pool.channels);
    assert u in pool.users;
    LinksAre(pool, Links(l.lists[u := []], l.members));
  }

  method AddUser(pool: ConnectionPool, name: string, password: string, ghost t: Table) returns (added: User?)
    requires pool.Linked() && Represents(pool, t)
    modifies pool`users
    ensures pool.Linked()
    ensures Represents(pool, if name in t.accounts then t
                             else Table(t.accounts[name := Account(password, [])], t.rooms))
    ensures added == null <==> name in t.accounts
    ensures added == null ==> pool.users == old(pool.users)
    ensures added != null ==> fresh(added) && added.name == name && pool.users == old(pool.users) + [added]
  {
    hide ConnectionPool.Linked, AreLinked, Represents, IsShown;
    ghost var users := pool.users;
    AccountsAreKnown(pool, t);
    AsInPool(pool, t);
    var newUser := new User(name, password);
    var ok := pool.PushUser(newUser);
    if !ok {
      AsInPool(pool, t);
      return null;
    }
    NewUser(pool, users, newUser, t);
    return newUser;
  }

  /** Lines 152-165 of the source: the answer is yes. */
  method CreateUser(pool: ConnectionPool, c: Connection, ghost t: Table)
    requires pool.Linked() && Represents(pool, t)
    requires c.username.Some? && c.password.Some? && c.user == null && !c.authenticated
    modifies pool`users, c
    ensures pool.Linked()
    ensures c.username == old(c.username) && c.password == old(c.password)
    ensures Represents(pool, if c.username.value in t.accounts then t
                             else Table(t.accounts[c.username.value := Account(c.password.value, [])], t.rooms))
    ensures SessionOf(c) == Answered(t.accounts, old(SessionOf(c)), true)
    ensures c.authenticated <==> c.user != null
    ensures pool.users == old(pool.users) || (c.user != null && pool.users == old(pool.users) + [c.user])
    ensures c.user != null ==> fresh(c.user) && c.user in pool.users && c.username == Some(c.user.name)
  {
    hide ConnectionPool.Linked, Represents;
    var newUser := AddUser(pool, c.username.value, c.password.value, t);
    if newUser != null {
      c.SendLiteral(Hello);
      c.SendLiteral(Username(c.username.value));
      c.SendLiteral(Exclamation);
      c.user, c.authenticated := newUser, true;
    } else {
      // the new user goes, and its destructor frees what it was made of
      c.freed := true;
      c.SendLiteral(CannotCreateUser);
      c.isGracefullyTerminated := true;
    }
  }

  /** Lines 170-189 of the source: no answer is due. */
  method Compare(pool: ConnectionPool, c: Connection, ghost accounts: AccountMap)
    requires Knows(accounts, pool.users)
    requires c.username.Some? && c.password.Some? && c.user == null && !c.authenticated
    modifies c
    ensures SessionOf(c) == Compared(accounts, old(SessionOf(c)))
    ensures c.authenticated <==> c.user != null
    ensures c.user != null ==> c.user in pool.users && c.username == Some(c.user.name)
  {
    var existing := pool.GetUser(c.username.value);
    if existing != null {
      if existing.password == c.password.value {
        c.SendLiteral(Hello);
        c.Send(c.username.value);
        c.SendLiteral(Exclamation);
        c.user, c.authenticated := existing, true;
      } else {
        c.SendLiteral(WrongPassword);
      }
      c.password := None;
    } else {
      c.SendLiteral(AskNewAccount);
      c.newAccount := true;
    }
  }

  /** Lines 149-190 of the source: both are entered. */
  method Decide(pool: ConnectionPool, c: Connection, line: string, ghost t: Table)
    requires pool.Linked() && Represents(pool, t)
    requires c.username.Some? && c.password.Some? && c.user == null && !c.authenticated
    modifies pool`users, c
    ensures pool.Linked()
    ensures Represents(pool, Table(AccountsWith(t.accounts, old(SessionOf(c)), line), t.rooms))
    ensures SessionOf(c) == Decided(t.accounts, old(SessionOf(c)), line)
    ensures c.authenticated <==> c.user != null
    ensures pool.users == old(pool.users)
      || (c.user != null && fresh(c.user) && pool.users == old(pool.users) + [c.user])
    ensures c.user != null ==> c.user in pool.users && c.username == Some(c.user.name)
  {
    hide ConnectionPool.Linked, Represents;
    if IsAnswer(c.newAccount, line, 'y') {
      CreateUser(pool, c, t);
    } else if IsAnswer(c.newAccount, line, 'n') {
      c.SendLiteral(ExitBye);
      c.isGracefullyTerminated := true;
    } else {
      AccountsAreKnown(pool, t);
      Compare(pool, c, t.accounts);
    }
  }

  /** Lines 99-191 of the source: a line of a connection that is not logged in. The model stops
      where the code reads the byte before an empty line, or what has been freed. */
  method Login(pool: ConnectionPool, c: Connection, raw: string, junk: string, ghost t: Table) returns (fate: Fate)
    requires pool.Linked() && Represents(pool, t) && GoodConnection(pool, c) && c.user == null
    modifies pool`users, c
    ensures fate == if raw == [] then ReadsBeforeBuffer
                    else if old(c.freed && LooksAtName(t.accounts, SessionOf(c), StripCr(raw))) then UsesFreedMemory
                    else Fine
    ensures fate != Fine ==> SessionOf(c) == old(SessionOf(c)) && Represents(pool, t)
    ensures fate == Fine ==>
      var (accounts, session) := AfterLogin(t.accounts, old(SessionOf(c)), StripCr(raw), junk);
      SessionOf(c) == session && Represents(pool, Table(accounts, t.rooms))
    ensures pool.Linked() && GoodConnection(pool, c)
    ensures pool.users == old(pool.users)
      || (c.user != null && fresh(c.user) && pool.users == old(pool.users) + [c.user])
  {
    hide ConnectionPool.Linked, Represents;
    if raw == [] {
      return ReadsBeforeBuffer;
    }
    var line := StripCr(raw);
    AccountsAreKnown(pool, t);
    NobodyIsKnown(t.accounts, pool.users);
    var looks := HasBoth(SessionOf(c), line)
      && (IsAnswer(c.newAccount, line, 'y') || (!IsAnswer(c.newAccount, line, 'n') && |pool.users| > 0));
    if c.freed && looks {
      return UsesFreedMemory;
    }
    Enter(c, line, junk);
    if c.username.Some? && c.password.Some? {
      Decide(pool, c, line, t);
    }
    return Fine;
  }

  /** A line of connection i, which is not logged in. */
  method HandleLogin(pool: ConnectionPool, conns: seq<Connection>, i: nat, raw: string, junk: string, ghost s: State)
    returns (fate: Fate)
    requires GoodServer(pool, conns) && Shows(pool, conns, s) && i < |conns| && conns[i].user == null
    modifies pool`users, conns[i]
    ensures fate == AfterEntry(s, i, raw, junk).1
    ensures GoodServer(pool, conns) && Shows(pool, conns, AfterEntry(s, i, raw, junk).0)
    ensures forall k | 0 <= k < |pool.users| :: pool.users[k] in old(pool.users) || fresh(pool.users[k])
  {
    hide ConnectionPool.Linked, Represents;
    fate := Login(pool, conns[i], raw, junk, s.table);
    assert forall u | u in old(pool.users) :: u in pool.users;
  }

  // --------------------------------------------------------------- commands

  /** Lines 177-180 of the source: a block for the name's characters alone, and `strcpy` into it.
      The answer is whether the NUL found a place. */
  method CopyName(name: string, spare: bool) returns (block: array<char>, fits: bool)
    ensures fits == spare && fresh(block) && |name| <= block.Length && block[..|name|] == name
    ensures fits ==> |name| < block.Length && block[|name|] == NUL
  {
    block := new char[if spare then |name| + 1 else |name|];
    for i := 0 to |name|
      invariant block[..i] == name[..i]
    {
      block[i] := name[i];
    }
    fits := |name| < block.Length;
    if fits {
      block[|name|] := NUL;
    }
  }

  /** One round of the loop of `/list_users`, in a block with room for the name. */
  method SendName(c: Connection, name: string, last: bool)
    modifies c`outbox
    ensures c.outbox == old(c.outbox) + Sent(c.isGracefullyTerminated, name)
                        + if last then [] else [StringLiteral(Comma)]
  {
    var block, _ := CopyName(name, true);
    assert c.outbox + [] == c.outbox;
    c.Send(block[..|name|]);
    if !last {
      c.SendLiteral(Comma);
    } else {
      assert c.outbox + [] == c.outbox;
    }
  }

  method Enumerate(c: Connection, users: seq<User>)
    modifies c`outbox
    ensures c.outbox == old(c.outbox) + Listed(Names(users), |users|, c.isGracefullyTerminated)
  {
    ghost var names, leaving := Names(users), c.isGracefullyTerminated;
    assert c.outbox + [] == c.outbox;
    for i := 0 to |users|
      invariant c.outbox == old(c.outbox) + Listed(names, i, leaving)
    {
      SendName(c, users[i].name, i == |users| - 1);
      ListedOneMore(old(c.outbox), names, i, leaving);
    }
  }

  lemma ListedOneMore(ps: seq<Outgoing>, names: seq<string>, i: nat, leaving: bool)
    requires i < |names|
    ensures ps + Listed(names, i + 1, leaving)
         == ps + Listed(names, i, leaving) + Sent(leaving, names[i])
            + if i == |names| - 1 then [] else [StringLiteral(Comma)]
  {
  }

  method SendList(c: Connection, users: seq<User>)
    modifies c`outbox
    ensures c.outbox == old(c.outbox)
      + ([StringLiteral(UsersAre)] + Listed(Names(users), |users|, c.isGracefullyTerminated) + [StringLiteral(Newline)])
  {
    ghost var names := Listed(Names(users), |users|, c.isGracefullyTerminated);
    c.SendLiteral(UsersAre);
    Enumerate(c, users);
    c.SendLiteral(Newline);
    Associative(old(c.outbox), [StringLiteral(UsersAre)], names);
    Associative(old(c.outbox), [StringLiteral(UsersAre)] + names, [StringLiteral(Newline)]);
  }

  /** `/list_users`. Without a byte to spare behind its blocks the first name already writes past
      the end of one, and the model stops there: some user is a member. */
  method List(pool: ConnectionPool, c: Connection, name: string, spare: bool, ghost t: Table) returns (fits: bool)
    requires pool.Linked() && Represents(pool, t)
    requires c.user != null && c.user in pool.users
    modifies c`outbox
    ensures fits <==> spare || !IsMember(t, c.user.name, name)
    ensures c.outbox == if fits then old(c.outbox) + ListReply(t, c.user.name, name, c.isGracefullyTerminated)
                        else old(c.outbox)
  {
    fits := true;
    ListKnown(pool, t, c.user, name);
    hide ConnectionPool.Linked, Represents;
    var own := Commands.FindOwn(c.user, name);
    if own.Some? {
      var channel := c.user.channels[own.value];
      assert channel in c.user.channels;
      if |channel.users| > 0 {
        var _, room := CopyName(channel.users[0].name, spare);
        fits := room;
      }
      if fits {
        SendList(c, channel.users);
      }
    } else {
      c.SendLiteral(OfReply(NotInChannel));
    }
  }

  lemma ListKnown(pool: ConnectionPool, t: Table, user: User, name: string)
    requires pool.Linked() && Represents(pool, t) && user in pool.users
    ensures IsMember(t, user.name, name) <==> exists ch :: ch in user.channels && ch.name == name
    ensures forall ch | ch in user.channels && ch.name == name ::
      ch.users != [] && name in t.rooms && t.rooms[name].members == Names(ch.users)
  {
    var l := LinksOf(pool);
    LinkedAgree(pool);
    ReplyKnown(l, t, user, name);
    assert l.lists[user] == user.channels;
    forall ch | ch in user.channels && ch.name == name
      ensures ch.users != [] && name in t.rooms && t.rooms[name].members == Names(ch.users)
    {
      assert ch in l.members && l.members[ch] == ch.users;
    }
  }

  /** Line 36 of the source: a command, and how it ends. */
  method RunCommand(pool: ConnectionPool, c: Connection, kind: Kind, args: seq<string>, spare: bool, ghost t: Table)
    returns (fate: Fate)
    requires pool.Linked() && Represents(pool, t) && GoodConnection(pool, c)
    requires c.user != null && |args| == Arity(kind)
    modifies pool, pool.users, pool.channels, c`outbox, c`isGracefullyTerminated
    ensures pool.users == old(pool.users)
    ensures fate == CommandFate(t, c.user.name, kind, args, spare)
    ensures fate == WrongChannel ==> !pool.Linked()
    ensures fate == WritesPastBlock ==> pool.Linked() && Represents(pool, t) && SessionOf(c) == old(SessionOf(c))
    ensures fate == Fine ==>
      var (t', session) := AfterCommand(t, old(SessionOf(c)), c.user.name, kind, args);
      pool.Linked() && Represents(pool, t') && SessionOf(c) == session
    ensures forall k | 0 <= k < |pool.channels| :: pool.channels[k] in old(pool.channels) || fresh(pool.channels[k])
  {
    hide ConnectionPool.Linked, Represents;
    match OrderOf(kind, args) {
      case Some(order) =>
        var reply, wrong := RunOrder(pool, c.user, order, t);
        c.SendLiteral(OfReply(reply));
        return if wrong then WrongChannel else Fine;
      case None =>
        if kind == ListUsers {
          var fits := List(pool, c, args[0], spare, t);
          return if fits then Fine else WritesPastBlock;
        }
        c.SendLiteral(Bye);
        c.isGracefullyTerminated := true;
        return Fine;
    }
  }

  method RunOrder(pool: ConnectionPool, user: User, order: Order, ghost t: Table) returns (reply: Reply, wrong: bool)
    requires pool.Linked() && Represents(pool, t) && user in pool.users
    modifies pool, pool.users, pool.channels
    ensures pool.users == old(pool.users)
    ensures reply == ReplyTo(t, user.name, order)
    ensures wrong <==> GoesWrong(t, user.name, order)
    ensures wrong ==> !pool.Linked()
    ensures !wrong ==> pool.Linked() && Represents(pool, Obey(t, user.name, order))
    ensures forall c | c in pool.channels :: c in old(pool.channels) || fresh(c)
  {
    hide ConnectionPool.Linked, Represents;
    wrong := false;
    match order {
      case DoSubscribe(name, password) => reply := SubscribeObeys(pool, user, name, password, t);
      case DoUnsubscribe(name) => reply := UnsubscribeObeys(pool, user, name, t);
      case DoDelete(name) =>
        var hit;
        reply, hit := DeleteAsWritten(pool, user, name, t);
        wrong := !hit;
    }
  }

  // --------------------------------------------------------------- messages

  /** How many copies of the sender's message go to a connection. */
  ghost function CopiesFor(c: Connection, sender: User, m: Message): nat
    reads c, c.user, sender, sender.channels
  {
    match m
    case Direct(to, _) => if c.user != null && c.user.name == to then 1 else 0
    case Group(to, _) =>
      if exists ch :: ch in sender.channels && ch.name == to && IsOther(c, sender, ch.users) then 1 else 0
    case Global(_) => if c.user == null || c.user == sender then 0 else |Shared(sender, c.user)|
  }

  /** What the sender is told. */
  ghost function ReplyFor(sender: User, m: Message): seq<Outgoing>
    reads sender
  {
    match m
    case Direct(_, _) => []
    case Group(to, _) =>
      if exists ch :: ch in sender.channels && ch.name == to then [] else [StringLiteral(ChannelNotFound)]
    case Global(_) => if sender.channels != [] then [] else [StringLiteral(NotSubscribed)]
  }

  /** Lines 38-97 of the source: a message goes to whoever is meant to get it. */
  method RunMessage(pool: ConnectionPool, conns: seq<Connection>, c: Connection, m: Message)
    requires pool.Linked() && Attached(pool, conns) && c in conns && c.user != null
    modifies conns`outbox
    ensures forall x | x in conns ::
      x.outbox == old(x.outbox) + Copies(Letter(Delivery(m, c.user.name)), old(CopiesFor(x, c.user, m)))
                + if x == c then old(ReplyFor(c.user, m)) else []
  {
    var sender, p := c.user, Letter(Delivery(m, c.user.name));
    match m {
      case Direct(to, _) => RouteDirect(conns, to, p);
      case Group(to, _) =>
        OwnChannelOnce(pool, sender, to);
        hide ConnectionPool.Linked;
        var found := RouteGroup(pool, conns, sender, to, p);
        if !found {
          c.SendLiteral(ChannelNotFound);
        }
      case Global(_) =>
        hide ConnectionPool.Linked;
        if |sender.channels| == 0 {
          assert forall u: User | u in pool.users :: Shared(sender, u) == {};
          c.SendLiteral(NotSubscribed);
        }
        var _ := RouteGlobal(pool, conns, sender, p);
    }
  }

  lemma OwnChannelOnce(pool: ConnectionPool, user: User, name: string)
    requires pool.Linked() && user in pool.users
    ensures forall c, d | c in user.channels && d in user.channels && c.name == name && d.name == name :: c == d
  {
  }

  ghost function NameSet(channels: set<Channel>): set<string> {
    set c | c in channels :: c.name
  }

  lemma {:induction false} AsManyNames(channels: set<Channel>)
    requires forall c, d | c in channels && d in channels && c.name == d.name :: c == d
    ensures |channels| == |NameSet(channels)|
    decreases |channels|
  {
    if channels != {} {
      var c :| c in channels;
      var rest := channels - {c};
      AsManyNames(rest);
      assert channels == rest + {c} && c.name !in NameSet(rest);
      assert NameSet(channels) == NameSet(rest) + {c.name};
    }
  }

  /** Two users share as many channels as rooms. */
  lemma SharedAlike(l: Links, t: Table, u: User, v: User, shared: set<Channel>)
    requires Agree(l) && IsShown(l, t) && u in l.lists && v in l.lists
    requires shared == set c | c in l.lists[u] && c in l.lists[v]
    ensures |shared| == |SharedRooms(t, u.name, v.name)|
  {
    AsManyNames(shared);
    var names := NameSet(shared);
    forall n | n in SharedRooms(t, u.name, v.name)
      ensures n in names
    {
      var c :| c in l.members && c.name == n;
      MemberKnown(l, t, u, c);
      MemberKnown(l, t, v, c);
      assert c in shared;
    }
    forall n | n in names
      ensures n in SharedRooms(t, u.name, v.name)
    {
      var c :| c in shared && c.name == n;
      MemberKnown(l, t, u, c);
      MemberKnown(l, t, v, c);
    }
    assert names == SharedRooms(t, u.name, v.name);
  }

  /** Another user is in the sender's channel of that name. */
  lemma OtherAlike(l: Links, t: Table, u: User, v: User, name: string)
    requires Agree(l) && IsShown(l, t) && u in l.lists && v in l.lists
    ensures IsMember(t, u.name, name) && IsMember(t, v.name, name)
       <==> exists c :: c in l.lists[u] && c.name == name && v in l.members[c]
  {
    ReplyKnown(l, t, u, name);
    forall c | c in l.lists[u] && c.name == name
      ensures IsMember(t, v.name, name) <==> v in l.members[c]
    {
      MemberKnown(l, t, v, c);
    }
  }

  lemma CopiesAlike(pool: ConnectionPool, t: Table, x: Connection, sender: User, m: Message)
    requires pool.Linked() && Represents(pool, t) && GoodConnection(pool, x) && sender in pool.users
    ensures CopiesFor(x, sender, m) == CopiesTo(t, SessionOf(x), sender.name, m)
  {
    if x.user != null {
      var l := LinksOf(pool);
      LinkedAgree(pool);
      assert sender in l.lists && x.user in l.lists;
      assert x.user.name == sender.name <==> x.user == sender;
      match m
      case Direct(_, _) =>
      case Group(to, _) => OtherAlike(l, t, sender, x.user, to);
      case Global(_) => SharedAlike(l, t, sender, x.user, Shared(sender, x.user));
    }
  }

  lemma ReplyAlike(pool: ConnectionPool, t: Table, sender: User, m: Message)
    requires pool.Linked() && Represents(pool, t) && sender in pool.users
    ensures ReplyFor(sender, m) == MessageReply(t, sender.name, m)
  {
    var l := LinksOf(pool);
    LinkedAgree(pool);
    assert l.lists[sender] == sender.channels;
    match m
    case Direct(_, _) =>
    case Group(to, _) => ReplyKnown(l, t, sender, to);
    case Global(_) =>
      if sender.channels != [] {
        MemberKnown(l, t, sender, sender.channels[0]);
      } else {
        forall n | n in t.rooms
          ensures !IsMember(t, sender.name, n)
        {
          ReplyKnown(l, t, sender, n);
        }
      }
  }

  lemma MessageAlike(pool: ConnectionPool, conns: seq<Connection>, i: nat, m: Message, s: State)
    requires GoodServer(pool, conns) && Shows(pool, conns, s) && i < |conns| && conns[i].user != null
    ensures conns[i] in conns && Attached(pool, conns)
    ensures forall j | 0 <= j < |conns| ::
      CopiesFor(conns[j], conns[i].user, m) == CopiesTo(s.table, s.sessions[j], conns[i].user.name, m)
    ensures ReplyFor(conns[i].user, m) == MessageReply(s.table, conns[i].user.name, m)
  {
    var sender := conns[i].user;
    assert conns[i] in conns;
    forall j | 0 <= j < |conns|
      ensures CopiesFor(conns[j], sender, m) == CopiesTo(s.table, s.sessions[j], sender.name, m)
    {
      assert conns[j] in conns;
      CopiesAlike(pool, s.table, conns[j], sender, m);
    }
    ReplyAlike(pool, s.table, sender, m);
  }

  /** A message line of connection i. */
  method HandleMessage(pool: ConnectionPool, conns: seq<Connection>, i: nat, m: Message, ghost s: State)
    requires GoodServer(pool, conns) && Shows(pool, conns, s) && i < |conns| && conns[i].user != null
    modifies conns`outbox
    ensures GoodServer(pool, conns)
    ensures Represents(pool, s.table)
    ensures forall j | 0 <= j < |conns| ::
      SessionOf(conns[j]) == AfterMessage(s.table, s.sessions, i, conns[i].user.name, m, j)
  {
    hide ConnectionPool.Linked, Represents;
    MessageAlike(pool, conns, i, m, s);
    RunMessage(pool, conns, conns[i], m);
  }

  // ------------------------------------------------------------ every line

  /** A command line of connection i, and how it ends. */
  method HandleCommand(pool: ConnectionPool, conns: seq<Connection>, i: nat, c: Connection,
                       kind: Kind, args: seq<string>, spare: bool, ghost s: State)
    returns (fate: Fate)
    requires GoodServer(pool, conns) && Shows(pool, conns, s) && i < |conns| && c == conns[i] && c.user != null
    requires |args| == Arity(kind)
    modifies pool, pool.users, pool.channels, c`outbox, c`isGracefullyTerminated
    ensures pool.users == old(pool.users)
    ensures fate == CommandFate(s.table, c.user.name, kind, args, spare)
    ensures fate == WrongChannel ==> !pool.Linked()
    ensures fate != WrongChannel ==> GoodServer(pool, conns)
    ensures fate == Fine ==>
      var (t, now) := AfterCommand(s.table, s.sessions[i], c.user.name, kind, args);
      Shows(pool, conns, State(t, s.sessions[i := now]))
    ensures fate == WritesPastBlock ==> Shows(pool, conns, s)
    ensures forall k | 0 <= k < |pool.channels| :: pool.channels[k] in old(pool.channels) || fresh(pool.channels[k])
  {
    hide ConnectionPool.Linked, Represents;
    assert c in conns;
    fate := RunCommand(pool, c, kind, args, spare, s.table);
  }

  /** Lines 26-98 of the source: a line of connection i, which is logged in. */
  method HandlePayload(pool: ConnectionPool, conns: seq<Connection>, i: nat, raw: string, spare: bool, ghost s: State)
    returns (fate: Fate)
    requires GoodServer(pool, conns) && Shows(pool, conns, s) && i < |conns| && conns[i].user != null
    modifies pool, pool.users, pool.channels, conns`outbox, conns`isGracefullyTerminated
    ensures fate == AfterPayload(s, i, conns[i].user.name, raw, spare).1 && pool.users == old(pool.users)
    ensures fate == WrongChannel ==> !pool.Linked()
    ensures fate != WrongChannel ==>
      GoodServer(pool, conns) && Shows(pool, conns, AfterPayload(s, i, conns[i].user.name, raw, spare).0)
    ensures forall k | 0 <= k < |pool.channels| :: pool.channels[k] in old(pool.channels) || fresh(pool.channels[k])
  {
    hide ConnectionPool.Linked, Represents;
    var c := conns[i];
    assert c in conns;
    var parsed := ParseInPlace(raw);
    match parsed {
      case Rejected =>
        c.SendLiteral(InvalidCommand);
        return Fine;
      case Crashed =>
        return NullCommand;
      case Accepted(Command(kind, args)) =>
        fate := HandleCommand(pool, conns, i, c, kind, args, spare, s);
      case Accepted(Msg(m)) =>
        HandleMessage(pool, conns, i, m, s);
        return Fine;
    }
  }

  /** Lines 15-24 of the source: the NULL line. */
  method HandleNull(c: Connection) returns (fate: Fate)
    requires c.authenticated || c.password == None || c.username.Some?
    modifies c`freed
    ensures fate == if !c.authenticated && c.username.Some? && old(c.freed) then UsesFreedMemory else Fine
    ensures c.freed == (old(c.freed) || (!c.authenticated && c.username.Some?))
  {
    if !c.authenticated && c.username.Some? {
      if c.freed {
        return UsesFreedMemory;
      }
      c.freed := true;
    }
    return Fine;
  }

  /** `handle_payload`: connection i reads a line. */
  method HandleLine(pool: ConnectionPool, conns: seq<Connection>, i: nat,
                    line: Option<string>, junk: string, spare: bool, ghost s: State)
    returns (fate: Fate)
    requires GoodServer(pool, conns) && Shows(pool, conns, s) && i < |conns|
    modifies pool, pool.users, pool.channels, conns
    ensures fate == Step(s, Reads(i, line, junk, spare)).1
    ensures fate == WrongChannel ==> !pool.Linked()
    ensures fate != WrongChannel ==>
      GoodServer(pool, conns) && Shows(pool, conns, Step(s, Reads(i, line, junk, spare)).0)
    ensures forall k | 0 <= k < |pool.channels| :: pool.channels[k] in old(pool.channels) || fresh(pool.channels[k])
    ensures forall k | 0 <= k < |pool.users| :: pool.users[k] in old(pool.users) || fresh(pool.users[k])
  {
    hide ConnectionPool.Linked, Represents;
    var c := conns[i];
    assert c in conns;
    if line == None {
      fate := HandleNull(c);
    } else if c.authenticated {
      fate := HandlePayload(pool, conns, i, line.value, spare, s);
    } else {
      fate := HandleLogin(pool, conns, i, line.value, junk, s);
    }
  }

  /** `ConnectionPool::push`, for a connection. */
  method Accept(pool: ConnectionPool, conns: seq<Connection>, ghost s: State) returns (conns': seq<Connection>)
    requires GoodServer(pool, conns) && Shows(pool, conns, s)
    ensures GoodServer(pool, conns') && Shows(pool, conns', Step(s, Connect).0)
    ensures |conns'| == |conns| + 1 && conns'[..|conns|] == conns && fresh(conns'[|conns|])
  {
    hide ConnectionPool.Linked, Represents;
    var c := new Connection();
    c.SendLiteral(Welcome);
    conns' := conns + [c];
  }

  method HandleEvent(pool: ConnectionPool, conns: seq<Connection>, e: Event, ghost s: State)
    returns (conns': seq<Connection>, fate: Fate)
    requires GoodServer(pool, conns) && Shows(pool, conns, s)
    modifies pool, pool.users, pool.channels, conns
    ensures fate == Step(s, e).1
    ensures fate == WrongChannel ==> !pool.Linked()
    ensures fate != WrongChannel ==> GoodServer(pool, conns') && Shows(pool, conns', Step(s, e).0)
    ensures |conns| <= |conns'| && conns'[..|conns|] == conns
    ensures forall k | |conns| <= k < |conns'| :: fresh(conns'[k])
    ensures forall k | 0 <= k < |pool.channels| :: pool.channels[k] in old(pool.channels) || fresh(pool.channels[k])
    ensures forall k | 0 <= k < |pool.users| :: pool.users[k] in old(pool.users) || fresh(pool.users[k])
  {
    hide ConnectionPool.Linked, Represents;
    conns', fate := conns, Fine;
    match e {
      case Connect => conns' := Accept(pool, conns, s);
      case Reads(i, line, junk, spare) =>
        if i < |conns| {
          fate := HandleLine(pool, conns, i, line, junk, spare, s);
        }
    }
  }

  /** Any interleaving of new connections and lines of any connections does what `Relay` says, up
      to the first step that does not end well: accounts, channels, who is logged in as whom, and
      every queue. */
  method Serve(pool: ConnectionPool, conns: seq<Connection>, events: seq<Event>, ghost s: State)
    returns (conns': seq<Connection>, fate: Fate)
    requires GoodServer(pool, conns) && Shows(pool, conns, s)
    modifies pool, pool.users, pool.channels, conns
    ensures fate == Served(s, events).1
    ensures fate == WrongChannel ==> !pool.Linked()
    ensures fate != WrongChannel ==> GoodServer(pool, conns') && Shows(pool, conns', Served(s, events).0)
    ensures |conns| <= |conns'| && conns'[..|conns|] == conns
    decreases |events|
  {
    hide ConnectionPool.Linked, Represents;
    if events == [] {
      return conns, Fine;
    }
    conns', fate := HandleEvent(pool, conns, events[0], s);
    if fate == Fine {
      conns', fate := Serve(pool, conns', events[1..], Step(s, events[0]).0);
    }
  }
}
