/** What every run of the server keeps. */
module RelayLaws {
  import opened Collections
  import opened Payloads
  import opened PayloadLaws
  import opened Messages
  import opened Replies
  import opened Outboxes
  import opened Rooms
  import opened Relay

  // ------------------------------------------------------------- the queues

  predicate NoLetters(ps: seq<Outgoing>) {
    forall p | p in ps :: !p.Letter?
  }

  lemma {:induction false} OrderlyMore(ps: seq<Outgoing>, qs: seq<Outgoing>)
    requires Orderly(ps) && NoLetters(qs)
    ensures Orderly(ps + qs)
  {
    hide Orderly;
    if qs == [] {
      assert ps + qs == ps;
    } else {
      var n := |qs| - 1;
      OrderlyMore(ps, qs[..n]);
      OrderlyOneMore(ps + qs[..n], qs[n]);
      assert ps + qs == ps + qs[..n] + [qs[n]];
    }
  }

  lemma LineEnds(ps: seq<Outgoing>, literal: Literal)
    requires EndsLine(literal)
    ensures AtLineStart(AllBytes(ps + [StringLiteral(literal)]))
  {
    hide TextOf;
    LineIsEnded(literal);
    AllBytesOneMore(ps, StringLiteral(literal));
  }

  /** Letters for a queue at the start of a line leave it there. */
  lemma {:induction false} LettersFit(ps: seq<Outgoing>, d: Delivery, n: nat)
    requires Orderly(ps) && AtLineStart(AllBytes(ps)) && IsDeliverable(d)
    ensures Orderly(ps + Copies(Letter(d), n)) && AtLineStart(AllBytes(ps + Copies(Letter(d), n)))
  {
    hide Orderly;
    if n == 0 {
      assert ps + Copies(Letter(d), n) == ps;
    } else {
      var before := ps + Copies(Letter(d), n - 1);
      LettersFit(ps, d, n - 1);
      OrderlyOneMore(before, Letter(d));
      AllBytesOneMore(before, Letter(d));
      assert ps + Copies(Letter(d), n) == before + [Letter(d)];
    }
  }

  // ----------------------------------------------------------- the sessions

  /** The letter is meant for whoever is logged in here, and its sender has an account: a direct
      message goes to the user it names, any other to somebody else than its sender. */
  predicate IsMeantFor(accounts: AccountMap, s: Session, d: Delivery) {
    && d.sender in accounts && s.loggedIn
    && match d.msg
       case Direct(to, _) => s.name == Some(to)
       case _ => s.name != Some(d.sender)
  }

  ghost predicate GoodSession(accounts: AccountMap, s: Session) {
    && (s.name.Some? ==> ValidName(s.name.value))
    && (s.password.Some? ==> s.name.Some? && ValidPassword(s.password.value))
    && (s.loggedIn ==> s.name.Some? && s.name.value in accounts && AtLineStart(AllBytes(s.queue)))
    && (s.freed ==> s.name.Some? && !s.loggedIn)
    && Orderly(s.queue)
    && (forall p | p in s.queue && p.Letter? :: IsMeantFor(accounts, s, p.d))
  }

  ghost predicate GoodAccounts(accounts: AccountMap) {
    forall n | n in accounts :: ValidName(n) && ValidPassword(accounts[n].password)
  }

  /** Names and passwords are as the login demands, membership agrees on both sides, and every
      queue holds what it should: for a logged-in connection it ends with a line. */
  ghost predicate GoodState(s: State) {
    && IsKept(s.table)
    && GoodAccounts(s.table.accounts)
    && forall q | q in s.sessions :: GoodSession(s.table.accounts, q)
  }

  lemma ToldKeeps(accounts: AccountMap, s: Session, ps: seq<Outgoing>, literal: Literal)
    requires GoodSession(accounts, s) && NoLetters(ps) && EndsLine(literal)
    ensures GoodSession(accounts, Told(s, ps + [StringLiteral(literal)]))
  {
    hide Orderly;
    OrderlyMore(s.queue, ps + [StringLiteral(literal)]);
    LineEnds(s.queue + ps, literal);
    Associative(s.queue, ps, [StringLiteral(literal)]);
  }

  lemma LettersKeep(accounts: AccountMap, s: Session, d: Delivery, n: nat)
    requires GoodSession(accounts, s) && IsDeliverable(d)
    requires n > 0 ==> IsMeantFor(accounts, s, d)
    ensures GoodSession(accounts, Told(s, Copies(Letter(d), n)))
  {
    hide Orderly;
    if n == 0 {
      assert s.queue + Copies(Letter(d), n) == s.queue;
    } else {
      LettersFit(s.queue, d, n);
    }
  }

  lemma MoreAccounts(accounts: AccountMap, accounts': AccountMap, s: Session)
    requires GoodSession(accounts, s) && accounts.Keys <= accounts'.Keys
    ensures GoodSession(accounts', s)
  {
    hide Orderly;
    assert forall n | n in accounts :: n in accounts';
  }

  // ------------------------------------------------------- the steps keep it

  lemma EnteringKeeps(accounts: AccountMap, s: Session, line: string, junk: string)
    requires GoodSession(accounts, s) && !s.loggedIn
    ensures GoodSession(accounts, Entered(s, line, junk))
  {
    hide Orderly;
    OrderlyMore(s.queue, EntryReply(s, line, junk));
  }

  lemma StayingOut(accounts: AccountMap, s: Session, literal: Literal)
    requires GoodSession(accounts, s) && !s.loggedIn
    ensures GoodSession(accounts, Told(s, [StringLiteral(literal)]))
  {
    hide Orderly;
    OrderlyMore(s.queue, [StringLiteral(literal)]);
  }

  lemma ComingIn(accounts: AccountMap, s: Session, ps: seq<Outgoing>, password: Option<string>)
    requires GoodSession(accounts, s) && !s.loggedIn && !s.freed && NoLetters(ps)
    requires s.name.Some? && s.name.value in accounts && (password == None || password == s.password)
    ensures GoodSession(accounts, Told(s, ps + [StringLiteral(Exclamation)]).(loggedIn := true, password := password))
  {
    hide Orderly;
    OrderlyMore(s.queue, ps + [StringLiteral(Exclamation)]);
    LineEnds(s.queue + ps, Exclamation);
    Associative(s.queue, ps, [StringLiteral(Exclamation)]);
  }

  lemma DecidingKeeps(accounts: AccountMap, s: Session, line: string)
    requires GoodSession(accounts, s) && GoodAccounts(accounts) && !s.loggedIn
    requires s.freed && s.name.Some? && s.password.Some? ==>
      !IsAnswer(s.asked, line, 'y') && (IsAnswer(s.asked, line, 'n') || accounts == map[])
    ensures GoodAccounts(AccountsWith(accounts, s, line))
    ensures GoodSession(AccountsWith(accounts, s, line), Decided(accounts, s, line))
  {
    if s.name.Some? && s.password.Some? {
      var name := s.name.value;
      if Creates(accounts, s, line) {
        var after := AccountsWith(accounts, s, line);
        MoreAccounts(accounts, after, s);
        var ps := [StringLiteral(Hello), StringLiteral(Username(name))];
        assert ps + [StringLiteral(Exclamation)]
            == [StringLiteral(Hello), StringLiteral(Username(name)), StringLiteral(Exclamation)];
        ComingIn(after, s, ps, s.password);
      } else if IsAnswer(s.asked, line, 'y') {
        StayingOut(accounts, s, CannotCreateUser);
        Frees(accounts, Told(s, [StringLiteral(CannotCreateUser)]));
      } else if IsAnswer(s.asked, line, 'n') {
        StayingOut(accounts, s, ExitBye);
      } else {
        ComparingKeeps(accounts, s);
      }
    }
  }

  lemma Frees(accounts: AccountMap, s: Session)
    requires GoodSession(accounts, s) && !s.loggedIn && s.name.Some?
    ensures GoodSession(accounts, s.(leaving := true, freed := true))
  {
    hide Orderly;
  }

  lemma ComparingKeeps(accounts: AccountMap, s: Session)
    requires GoodSession(accounts, s) && !s.loggedIn && s.name.Some? && s.password.Some?
    requires s.freed ==> accounts == map[]
    ensures GoodSession(accounts, Compared(accounts, s))
  {
    var name := s.name.value;
    if name !in accounts {
      StayingOut(accounts, s, AskNewAccount);
    } else if accounts[name].password != s.password.value {
      StayingOut(accounts, s, WrongPassword);
    } else {
      ComingIn(accounts, s, [StringLiteral(Hello)] + Sent(s.leaving, name), None);
    }
  }

  lemma EntryKeeps(s: State, i: nat, raw: string, junk: string)
    requires GoodState(s) && i < |s.sessions| && !s.sessions[i].loggedIn
    ensures GoodState(AfterEntry(s, i, raw, junk).0)
  {
    var (after, fate) := AfterEntry(s, i, raw, junk);
    if fate == Fine {
      hide Orderly, GoodSession, GoodAccounts;
      var me, line := s.sessions[i], StripCr(raw);
      EnteringKeeps(s.table.accounts, me, line, junk);
      EntryFreed(me, line, junk);
      DecidingKeeps(s.table.accounts, Entered(me, line, junk), line);
      NewAccountKeeps(s.table, after.table.accounts);
      forall q | q in s.sessions
        ensures GoodSession(after.table.accounts, q)
      {
        MoreAccounts(s.table.accounts, after.table.accounts, q);
      }
    }
  }

  lemma EntryFreed(s: Session, line: string, junk: string)
    ensures Entered(s, line, junk).name.Some? && Entered(s, line, junk).password.Some? <==> HasBoth(s, line)
    ensures Entered(s, line, junk).freed == s.freed && Entered(s, line, junk).loggedIn == s.loggedIn
    ensures Entered(s, line, junk).asked == s.asked
  {
  }

  /** A user without channels changes no membership. */
  lemma NewAccountKeeps(t: Table, accounts: AccountMap)
    requires IsKept(t)
    requires forall n | n in t.accounts :: n in accounts && accounts[n] == t.accounts[n]
    requires forall n | n in accounts && n !in t.accounts :: accounts[n].joined == []
    ensures IsKept(Table(accounts, t.rooms))
  {
    var after := Table(accounts, t.rooms);
    forall u, n
      ensures IsMember(after, u, n) <==> HasJoined(after, u, n)
    {
      assert IsMember(t, u, n) <==> HasJoined(t, u, n);
    }
  }

  lemma ListedHasNoLetters(members: seq<string>, k: nat, leaving: bool)
    requires k <= |members|
    ensures NoLetters(Listed(members, k, leaving))
  {
  }

  lemma CommandKeeps(t: Table, s: Session, user: string, kind: Kind, args: seq<string>)
    requires IsKept(t) && GoodAccounts(t.accounts) && GoodSession(t.accounts, s) && s.loggedIn
    requires user in t.accounts && |args| == Arity(kind)
    ensures var (t', s') := AfterCommand(t, s, user, kind, args);
            && IsKept(t') && GoodAccounts(t'.accounts) && t'.accounts.Keys == t.accounts.Keys
            && GoodSession(t'.accounts, s')
  {
    hide GoodSession, IsKept;
    match OrderOf(kind, args)
    case Some(order) => OrderKeeps(t, s, user, order);
    case None =>
      if kind == ListUsers {
        ListKeeps(t, s, user, args[0]);
      } else {
        assert [] + [StringLiteral(Bye)] == [StringLiteral(Bye)];
        ToldKeeps(t.accounts, s, [], Bye);
        Leaves(t.accounts, Told(s, [StringLiteral(Bye)]));
      }
  }

  lemma OrderKeeps(t: Table, s: Session, user: string, order: Order)
    requires IsKept(t) && GoodAccounts(t.accounts) && GoodSession(t.accounts, s) && user in t.accounts
    ensures var t', s' := Obey(t, user, order), Told(s, [StringLiteral(OfReply(ReplyTo(t, user, order)))]);
            && IsKept(t') && GoodAccounts(t'.accounts) && t'.accounts.Keys == t.accounts.Keys
            && GoodSession(t'.accounts, s')
  {
    hide GoodSession, IsKept, TextOf;
    var reply := OfReply(ReplyTo(t, user, order));
    ObeyKeeps(t, user, order);
    SameAccounts(t, user, order);
    assert [] + [StringLiteral(reply)] == [StringLiteral(reply)];
    ToldKeeps(t.accounts, s, [], reply);
    MoreAccounts(t.accounts, Obey(t, user, order).accounts, Told(s, [StringLiteral(reply)]));
  }

  lemma Leaves(accounts: AccountMap, s: Session)
    requires GoodSession(accounts, s)
    ensures GoodSession(accounts, s.(leaving := true))
  {
    hide Orderly;
  }

  lemma ListKeeps(t: Table, s: Session, user: string, name: string)
    requires GoodSession(t.accounts, s)
    ensures GoodSession(t.accounts, Told(s, ListReply(t, user, name, s.leaving)))
  {
    hide GoodSession;
    if IsMember(t, user, name) {
      var members := t.rooms[name].members;
      ListedHasNoLetters(members, |members|, s.leaving);
      ToldKeeps(t.accounts, s, [StringLiteral(UsersAre)] + Listed(members, |members|, s.leaving), Newline);
    } else {
      assert [] + [StringLiteral(OfReply(NotInChannel))] == [StringLiteral(OfReply(NotInChannel))];
      ToldKeeps(t.accounts, s, [], OfReply(NotInChannel));
    }
  }

  lemma MessageKeeps(t: Table, sessions: seq<Session>, i: nat, sender: string, m: Message, j: nat)
    requires GoodAccounts(t.accounts) && j < |sessions| && GoodSession(t.accounts, sessions[j])
    requires sender in t.accounts && Sendable(m)
    ensures GoodSession(t.accounts, AfterMessage(t, sessions, i, sender, m, j))
  {
    var d, q := Delivery(m, sender), sessions[j];
    var n := CopiesTo(t, q, sender, m);
    assert n > 0 ==> IsMeantFor(t.accounts, q, d);
    hide GoodSession;
    LettersKeep(t.accounts, q, d, n);
    ReplyKeeps(t, Told(q, Copies(Letter(d), n)), sender, m);
    assert Told(q, Copies(Letter(d), n)).queue + [] == Told(q, Copies(Letter(d), n)).queue;
  }

  lemma ReplyKeeps(t: Table, s: Session, sender: string, m: Message)
    requires GoodSession(t.accounts, s)
    ensures GoodSession(t.accounts, Told(s, MessageReply(t, sender, m)))
  {
    hide GoodSession;
    assert s.queue + [] == s.queue;
    assert forall l: Literal :: [] + [StringLiteral(l)] == [StringLiteral(l)];
    ToldKeeps(t.accounts, s, [], ChannelNotFound);
    ToldKeeps(t.accounts, s, [], NotSubscribed);
  }

  lemma PayloadKeeps(s: State, i: nat, raw: string, spare: bool)
    requires GoodState(s) && i < |s.sessions| && s.sessions[i].loggedIn && s.sessions[i].name.Some?
    ensures GoodState(AfterPayload(s, i, s.sessions[i].name.value, raw, spare).0)
  {
    var me := s.sessions[i];
    assert GoodSession(s.table.accounts, me);
    var user := me.name.value;
    var after := AfterPayload(s, i, user, raw, spare).0;
    hide GoodSession, GoodAccounts, IsKept;
    match ParseLine(raw)
    case Rejected =>
      assert [] + [StringLiteral(InvalidCommand)] == [StringLiteral(InvalidCommand)];
      ToldKeeps(s.table.accounts, me, [], InvalidCommand);
    case Crashed =>
    case Accepted(Command(kind, args)) =>
      CommandKeeps(s.table, me, user, kind, args);
      forall q | q in s.sessions
        ensures GoodSession(AfterCommand(s.table, me, user, kind, args).0.accounts, q)
      {
        MoreAccounts(s.table.accounts, AfterCommand(s.table, me, user, kind, args).0.accounts, q);
      }
    case Accepted(Msg(m)) =>
      AcceptedPrintsBack(raw, m);
      forall j | 0 <= j < |s.sessions|
        ensures GoodSession(s.table.accounts, AfterMessage(s.table, s.sessions, i, user, m, j))
      {
        assert s.sessions[j] in s.sessions;
        MessageKeeps(s.table, s.sessions, i, user, m, j);
      }
  }

  lemma ConnectKeeps(s: State)
    requires GoodState(s)
    ensures GoodState(Step(s, Connect).0)
  {
    assert GoodSession(s.table.accounts, NOBODY) by {
      AllBytesOfOne(StringLiteral(Welcome));
    }
    hide GoodSession, GoodAccounts, IsKept;
  }

  lemma NullKeeps(s: State, i: nat)
    requires GoodState(s) && i < |s.sessions|
    ensures GoodState(AfterNull(s, i).0)
  {
    assert GoodSession(s.table.accounts, s.sessions[i]);
    assert !s.sessions[i].loggedIn && s.sessions[i].name.Some? ==>
      GoodSession(s.table.accounts, s.sessions[i].(freed := true));
    hide GoodSession, GoodAccounts, IsKept;
  }

  lemma StepKeeps(s: State, e: Event)
    requires GoodState(s)
    ensures GoodState(Step(s, e).0)
  {
    match e
    case Connect => ConnectKeeps(s);
    case Reads(i, line, junk, spare) =>
      if i < |s.sessions| {
        assert GoodSession(s.table.accounts, s.sessions[i]);
        hide GoodState;
        if line == None {
          NullKeeps(s, i);
        } else if s.sessions[i].loggedIn {
          PayloadKeeps(s, i, line.value, spare);
        } else {
          EntryKeeps(s, i, line.value, junk);
        }
      }
  }

  /** Every run keeps names and passwords legal, membership in agreement, and in every queue only
      what is meant for its reader, with every letter at the start of a line. */
  lemma {:induction false} RunKeepsGood(s: State, events: seq<Event>)
    requires GoodState(s)
    ensures GoodState(Served(s, events).0)
    decreases |events|
  {
    hide GoodState;
    if events != [] {
      StepKeeps(s, events[0]);
      if Step(s, events[0]).1 == Fine {
        RunKeepsGood(Step(s, events[0]).0, events[1..]);
      }
    }
  }

  lemma EmptyIsGood()
    ensures GoodState(EMPTY)
  {
    assert forall u, n :: !IsMember(EMPTY.table, u, n) && !HasJoined(EMPTY.table, u, n);
  }

  // ------------------------------------------------------- what stays put

  ghost predicate Continues(q: Session, q': Session) {
    q.queue <= q'.queue && (q.loggedIn ==> q'.loggedIn && q'.name == q.name) && (q.leaving ==> q'.leaving)
  }

  /** Accounts stay, with their passwords; so does everybody who is logged in, as whoever they
      are; and queues only grow. */
  ghost predicate Grows(s: State, s': State) {
    && (forall n | n in s.table.accounts ::
          n in s'.table.accounts && s'.table.accounts[n].password == s.table.accounts[n].password)
    && |s.sessions| <= |s'.sessions|
    && forall i | 0 <= i < |s.sessions| :: Continues(s.sessions[i], s'.sessions[i])
  }

  lemma LoginGrows(accounts: AccountMap, q: Session, line: string, junk: string)
    requires !q.loggedIn
    ensures Continues(q, AfterLogin(accounts, q, line, junk).1)
    ensures forall n | n in accounts ::
      n in AfterLogin(accounts, q, line, junk).0 && AfterLogin(accounts, q, line, junk).0[n] == accounts[n]
  {
  }

  lemma PayloadGrows(s: State, i: nat, user: string, raw: string, spare: bool)
    requires i < |s.sessions|
    ensures Grows(s, AfterPayload(s, i, user, raw, spare).0)
  {
    hide AfterCommand;
    match ParseLine(raw)
    case Accepted(Command(kind, args)) => CommandGrows(s.table, s.sessions[i], user, kind, args);
    case _ =>
  }

  lemma CommandGrows(t: Table, q: Session, user: string, kind: Kind, args: seq<string>)
    requires |args| == Arity(kind)
    ensures var (t', q') := AfterCommand(t, q, user, kind, args);
            Continues(q, q')
            && forall n | n in t.accounts :: n in t'.accounts && t'.accounts[n].password == t.accounts[n].password
  {
    if OrderOf(kind, args).Some? && user in t.accounts {
      SameAccounts(t, user, OrderOf(kind, args).value);
      hide Obey;
    }
  }

  lemma LineGrows(s: State, i: nat, raw: string, junk: string, spare: bool)
    requires GoodState(s) && i < |s.sessions|
    ensures Grows(s, Step(s, Reads(i, Some(raw), junk, spare)).0)
  {
    var me := s.sessions[i];
    assert GoodSession(s.table.accounts, me);
    hide GoodState, GoodSession, AfterPayload, AfterLogin;
    if me.loggedIn {
      hide Grows;
      PayloadGrows(s, i, me.name.value, raw, spare);
    } else {
      LoginGrows(s.table.accounts, me, StripCr(raw), junk);
    }
  }

  lemma StepGrows(s: State, e: Event)
    requires GoodState(s)
    ensures Grows(s, Step(s, e).0)
  {
    hide GoodState, AfterPayload, AfterEntry;
    if e.Reads? && e.conn < |s.sessions| && e.line.Some? {
      LineGrows(s, e.conn, e.line.value, e.junk, e.spare);
    }
  }

  lemma {:induction false} RunGrows(s: State, events: seq<Event>)
    requires GoodState(s)
    ensures Grows(s, Served(s, events).0)
    decreases |events|
  {
    hide GoodState;
    if events != [] {
      StepKeeps(s, events[0]);
      StepGrows(s, events[0]);
      if Step(s, events[0]).1 == Fine {
        RunGrows(Step(s, events[0]).0, events[1..]);
      }
    }
  }

  // ------------------------------------------------ who may log in as whom

  /** The lines connection i has sent, less their carriage returns. */
  function TypedBy(events: seq<Event>, i: nat): set<string> {
    set k | 0 <= k < |events| && events[k].Reads? && events[k].conn == i && events[k].line.Some? ::
      StripCr(events[k].line.value)
  }

  lemma TypedOneMore(past: seq<Event>, e: Event, i: nat)
    ensures TypedBy(past, i) <= TypedBy(past + [e], i)
    ensures e.Reads? && e.conn == i && e.line.Some? ==> StripCr(e.line.value) in TypedBy(past + [e], i)
  {
    var more := past + [e];
    forall line | line in TypedBy(past, i)
      ensures line in TypedBy(more, i)
    {
      var k :| 0 <= k < |past| && past[k].Reads? && past[k].conn == i && past[k].line.Some?
               && StripCr(past[k].line.value) == line;
      assert more[k] == past[k];
    }
    assert more[|past|] == e;
  }

  /** A password a connection has entered, and that of the account it is logged in to, it has
      typed. */
  ghost predicate IsVouched(accounts: AccountMap, q: Session, typed: set<string>) {
    && (q.password.Some? ==> q.password.value in typed)
    && (q.loggedIn ==> q.name.Some? && q.name.value in accounts && accounts[q.name.value].password in typed)
  }

  ghost predicate Vouched(s: State, events: seq<Event>) {
    forall i | 0 <= i < |s.sessions| :: IsVouched(s.table.accounts, s.sessions[i], TypedBy(events, i))
  }

  lemma LoginIsVouched(accounts: AccountMap, q: Session, line: string, junk: string, typed: set<string>)
    requires IsVouched(accounts, q, typed) && !q.loggedIn && line in typed
    ensures var (accounts', q') := AfterLogin(accounts, q, line, junk); IsVouched(accounts', q', typed)
  {
  }

  lemma StaysVouched(accounts: AccountMap, q: Session, accounts': AccountMap, q': Session,
                     typed: set<string>, typed': set<string>)
    requires IsVouched(accounts, q, typed) && typed <= typed'
    requires forall n | n in accounts :: n in accounts' && accounts'[n].password == accounts[n].password
    requires IsSame(q, q')
    ensures IsVouched(accounts', q', typed')
  {
  }

  /** The step takes a line of connection j for a part of its login. */
  predicate IsEntry(s: State, e: Event, j: nat)
    requires j < |s.sessions|
  {
    e.Reads? && e.conn == j && e.line.Some? && !s.sessions[j].loggedIn && Step(s, e).1 == Fine
  }

  lemma EntryChanges(s: State, e: Event, j: nat)
    requires GoodState(s) && j < |s.sessions| && IsEntry(s, e, j)
    ensures var after := Step(s, e).0;
            |after.sessions| == |s.sessions|
            && (after.table.accounts, after.sessions[j])
               == AfterLogin(s.table.accounts, s.sessions[j], StripCr(e.line.value), e.junk)
  {
    hide GoodState, AfterLogin;
  }

  predicate IsSame(q: Session, q': Session) {
    q'.name == q.name && q'.password == q.password && q'.loggedIn == q.loggedIn
  }

  lemma PayloadLogsNobodyIn(s: State, i: nat, user: string, raw: string, spare: bool, j: nat)
    requires i < |s.sessions| && j < |s.sessions|
    ensures |AfterPayload(s, i, user, raw, spare).0.sessions| == |s.sessions|
    ensures IsSame(s.sessions[j], AfterPayload(s, i, user, raw, spare).0.sessions[j])
  {
    hide AfterCommand;
    match ParseLine(raw)
    case Accepted(Command(kind, args)) => CommandLogsNobodyIn(s.table, s.sessions[i], user, kind, args);
    case _ =>
  }

  lemma CommandLogsNobodyIn(t: Table, q: Session, user: string, kind: Kind, args: seq<string>)
    requires |args| == Arity(kind)
    ensures IsSame(q, AfterCommand(t, q, user, kind, args).1)
  {
    hide Obey, ReplyTo, ListReply;
  }

  lemma OthersStay(s: State, e: Event, j: nat)
    requires GoodState(s) && j < |s.sessions| && !IsEntry(s, e, j)
    ensures var after := Step(s, e).0;
            j < |after.sessions| && IsSame(s.sessions[j], after.sessions[j])
  {
    assert GoodSession(s.table.accounts, s.sessions[j]);
    hide GoodState, AfterLogin, Orderly, AfterPayload;
    if e.Reads? && e.conn < |s.sessions| && e.line.Some? && s.sessions[e.conn].name.Some? {
      PayloadLogsNobodyIn(s, e.conn, s.sessions[e.conn].name.value, e.line.value, e.spare, j);
    }
  }

  lemma StepIsVouched(s: State, past: seq<Event>, e: Event)
    requires GoodState(s) && Vouched(s, past)
    ensures Vouched(Step(s, e).0, past + [e])
  {
    var after, more := Step(s, e).0, past + [e];
    StepGrows(s, e);
    forall j | 0 <= j < |after.sessions|
      ensures IsVouched(after.table.accounts, after.sessions[j], TypedBy(more, j))
    {
      TypedOneMore(past, e, j);
      if j < |s.sessions| {
        SessionIsVouched(s, past, e, j);
      }
    }
  }

  lemma SessionIsVouched(s: State, past: seq<Event>, e: Event, j: nat)
    requires GoodState(s) && Vouched(s, past) && j < |s.sessions| && Grows(s, Step(s, e).0)
    requires TypedBy(past, j) <= TypedBy(past + [e], j)
    requires e.Reads? && e.conn == j && e.line.Some? ==> StripCr(e.line.value) in TypedBy(past + [e], j)
    ensures IsVouched(Step(s, e).0.table.accounts, Step(s, e).0.sessions[j], TypedBy(past + [e], j))
  {
    var q, after, typed := s.sessions[j], Step(s, e).0, TypedBy(past + [e], j);
    assert IsVouched(s.table.accounts, q, TypedBy(past, j));
    hide GoodState, IsVouched, Step, AfterLogin;
    StaysVouched(s.table.accounts, q, s.table.accounts, q, TypedBy(past, j), typed);
    if IsEntry(s, e, j) {
      EntryChanges(s, e, j);
      LoginIsVouched(s.table.accounts, q, StripCr(e.line.value), e.junk, typed);
    } else {
      OthersStay(s, e, j);
      StaysVouched(s.table.accounts, q, after.table.accounts, after.sessions[j], TypedBy(past, j), typed);
    }
  }

  lemma {:induction false} RunIsVouched(s: State, past: seq<Event>, events: seq<Event>)
    requires GoodState(s) && Vouched(s, past)
    ensures Vouched(Served(s, events).0, past + events)
    decreases |events|
  {
    hide GoodState, Vouched;
    if events == [] {
      assert past + events == past;
    } else {
      var next := Step(s, events[0]).0;
      StepKeeps(s, events[0]);
      StepIsVouched(s, past, events[0]);
      assert past + events == past + [events[0]] + events[1..];
      if Step(s, events[0]).1 == Fine {
        RunIsVouched(next, past + [events[0]], events[1..]);
      } else {
        MoreTyped(next, past + [events[0]], events[1..]);
      }
    }
  }

  lemma {:induction false} MoreTyped(s: State, past: seq<Event>, events: seq<Event>)
    requires Vouched(s, past)
    ensures Vouched(s, past + events)
    decreases |events|
  {
    if events == [] {
      assert past + events == past;
    } else {
      forall j | 0 <= j < |s.sessions|
        ensures IsVouched(s.table.accounts, s.sessions[j], TypedBy(past + [events[0]], j))
      {
        TypedOneMore(past, events[0], j);
      }
      MoreTyped(s, past + [events[0]], events[1..]);
      assert past + events == past + [events[0]] + events[1..];
    }
  }
}
