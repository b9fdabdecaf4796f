/** Whole dialogues of clients with the server: signing up, coming back, joining and leaving, and
    what is to be read on the way. */
module Dialogues {
  import opened Collections
  import opened Framing
  import opened Payloads
  import opened PayloadLaws
  import opened TypedLines
  import opened Messages
  import opened Replies
  import opened Outboxes
  import opened Rooms
  import opened Relay
  import opened RelayLaws
  import opened RelayRuns
  import opened RelayLogin
  import opened RelayCommands

  // --------------------------------------------------- coming and going

  function Types(conn: nat, raw: string): Event {
    Reads(conn, Some(raw), [], true)
  }

  lemma NameIsItsLine(name: string)
    requires ValidName(name)
    ensures StripCr(name) == name && IsCTextOf(name, StripCr(name)) && IsLegal(name)
  {
    assert name[|name| - 1] in name;
  }

  lemma ServedOnce(s: State, e: Event)
    ensures Served(s, [e]) == Step(s, e)
  {
    hide Step;
    assert [] + [e] == [e];
    ServedOneMore(s, [], e);
  }

  lemma {:induction false} ServedInTwo(s: State, events: seq<Event>, more: seq<Event>)
    requires Served(s, events).1 == Fine
    ensures Served(s, events + more) == Served(Served(s, events).0, more)
    decreases |events|
  {
    hide Step;
    if events == [] {
      assert events + more == more;
    } else {
      ServedInTwo(Step(s, events[0]).0, events[1..], more);
      assert (events + more)[1..] == events[1..] + more;
    }
  }

  /** A new connection, the n-th, types a name and a password. */
  function Entering(n: nat, name: string, password: string): seq<Event> {
    [Connect] + [Types(n, name)] + [Types(n, password)]
  }

  /** What it has been sent by then. */
  function Greeted(name: string): seq<Outgoing> {
    [StringLiteral(Welcome), StringLiteral(Hello), Buff(name), StringLiteral(AskPassword)]
  }

  lemma NewNameIsRead(s: State, name: string)
    requires GoodState(s) && ValidName(name)
    ensures var s1 := Step(s, Connect).0;
            Step(s1, Types(|s.sessions|, name))
            == (State(s.table, s.sessions + [NOBODY.(name := Some(name), queue := Greeted(name))]), Fine)
  {
    var s1 := Step(s, Connect).0;
    NameIsItsLine(name);
    ConnectKeeps(s);
    NameIsRead(s1, |s.sessions|, name, [], true, name);
    var copy :| |copy| == |name| && IsCTextOf(name, copy)
      && Step(s1, Types(|s.sessions|, name)).0 == State(s1.table, s1.sessions[|s.sessions| := NOBODY.(
           name := Some(name),
           queue := NOBODY.queue + ([StringLiteral(Hello)] + [Buff(copy)] + [StringLiteral(AskPassword)]))]);
    assert copy == name;
    assert NOBODY.queue + ([StringLiteral(Hello)] + [Buff(name)] + [StringLiteral(AskPassword)]) == Greeted(name);
    assert s1.sessions[|s.sessions| := NOBODY.(name := Some(name), queue := Greeted(name))]
        == s.sessions + [NOBODY.(name := Some(name), queue := Greeted(name))];
  }

  /** Whoever enters a name and a password on a new connection is logged in if and only if there
      is an account of that name with that password; asked again if the password is another; and
      asked whether to make an account if there is none. Nothing else changes. */
  lemma Enters(s: State, name: string, password: string)
    requires GoodState(s) && ValidName(name) && ValidPassword(StripCr(password))
    ensures var (after, fate) := Served(s, Entering(|s.sessions|, name, password));
            var typed := StripCr(password);
            && fate == Fine && after.table == s.table && |after.sessions| == |s.sessions| + 1
            && after.sessions[..|s.sessions|] == s.sessions
            && after.sessions[|s.sessions|]
               == if name !in s.table.accounts then
                    Session(Some(name), Some(typed), false, true, false, false,
                            Greeted(name) + [StringLiteral(AskNewAccount)])
                  else if s.table.accounts[name].password == typed then
                    Session(Some(name), None, true, false, false, false,
                            Greeted(name) + ([StringLiteral(Hello), Buff(name), StringLiteral(Exclamation)]))
                  else
                    Session(Some(name), None, false, false, false, false,
                            Greeted(name) + [StringLiteral(WrongPassword)])
  {
    var n, s1 := |s.sessions|, Step(s, Connect).0;
    NewNameIsRead(s, name);
    var s2 := Step(s1, Types(n, name)).0;
    assert s2.sessions[n] == NOBODY.(name := Some(name), queue := Greeted(name));
    PasswordIsCompared(s2, n, password, [], true, name, StripCr(password));
    assert [StringLiteral(Hello)] + [Buff(name)] + [StringLiteral(Exclamation)]
        == [StringLiteral(Hello), Buff(name), StringLiteral(Exclamation)];
    hide Step, Greeted, GoodState;
    ServedOnce(s, Connect);
    ServedOneMore(s, [Connect], Types(n, name));
    ServedOneMore(s, [Connect] + [Types(n, name)], Types(n, password));
  }

  /** ... and then answers yes: there is an account of that name with that password, and this
      connection is logged in to it. */
  lemma SignsUp(s: State, name: string, password: string)
    requires GoodState(s) && ValidName(name) && ValidPassword(StripCr(password)) && name !in s.table.accounts
    ensures var n, typed := |s.sessions|, StripCr(password);
            var (after, fate) := Served(s, Entering(n, name, password) + [Types(n, "y")]);
            && fate == Fine && |after.sessions| == n + 1 && after.sessions[..n] == s.sessions
            && after.table == Table(s.table.accounts[name := Account(typed, [])], s.table.rooms)
            && after.sessions[n]
               == Session(Some(name), Some(typed), true, true, false, false,
                          Greeted(name) + [StringLiteral(AskNewAccount), StringLiteral(Hello),
                                           StringLiteral(Username(name)), StringLiteral(Exclamation)])
  {
    hide Step, Served, Entering, GoodState, Greeted, ValidName, ValidPassword;
    var n, s1 := |s.sessions|, Served(s, Entering(|s.sessions|, name, password)).0;
    Enters(s, name, password);
    AnsweringYes(s1, n, name, StripCr(password));
    ServedOneMore(s, Entering(n, name, password), Types(n, "y"));
    Associative(Greeted(name), [StringLiteral(AskNewAccount)],
                [StringLiteral(Hello), StringLiteral(Username(name)), StringLiteral(Exclamation)]);
    assert [StringLiteral(AskNewAccount)]
             + [StringLiteral(Hello), StringLiteral(Username(name)), StringLiteral(Exclamation)]
        == [StringLiteral(AskNewAccount), StringLiteral(Hello), StringLiteral(Username(name)),
            StringLiteral(Exclamation)];
  }

  lemma AnsweringYes(s: State, n: nat, name: string, password: string)
    requires n < |s.sessions| && name !in s.table.accounts
    requires var me := s.sessions[n];
             !me.loggedIn && !me.freed && me.asked && me.name == Some(name) && me.password == Some(password)
    ensures Step(s, Types(n, "y"))
         == (State(Table(s.table.accounts[name := Account(password, [])], s.table.rooms),
                   s.sessions[n := s.sessions[n].(
                     loggedIn := true,
                     queue := s.sessions[n].queue + [StringLiteral(Hello), StringLiteral(Username(name)),
                                                     StringLiteral(Exclamation)])]), Fine)
  {
    hide Step;
    assert StripCr("y") == "y";
    YesIsRead(s, n, "y", [], true, name, password);
  }

  function SigningUp(n: nat, name: string, password: string): seq<Event> {
    Entering(n, name, password) + [Types(n, "y")]
  }

  /** After any run that goes well: who signs up on one connection can come in on the next, with
      that password and with no other, and is then logged in on both. */
  lemma ComesBack(events: seq<Event>, name: string, password: string, again: string)
    requires Served(EMPTY, events).1 == Fine
    requires ValidName(name) && name !in Served(EMPTY, events).0.table.accounts
    requires ValidPassword(StripCr(password)) && ValidPassword(StripCr(again))
    ensures var n := |Served(EMPTY, events).0.sessions|;
            var (after, fate) := Served(EMPTY, events + (SigningUp(n, name, password) + Entering(n + 1, name, again)));
            && fate == Fine && |after.sessions| == n + 2
            && after.sessions[n].loggedIn && after.sessions[n].name == after.sessions[n + 1].name == Some(name)
            && (after.sessions[n + 1].loggedIn <==> StripCr(again) == StripCr(password))
  {
    hide GoodState, Served, Entering, SigningUp, ValidName, ValidPassword;
    var s := Served(EMPTY, events).0;
    var n := |s.sessions|;
    RunsFromTheStart(events);
    SignsUpAndComesBack(s, name, password, again);
    ServedInTwo(EMPTY, events, SigningUp(n, name, password) + Entering(n + 1, name, again));
  }

  lemma SignsUpAndComesBack(s: State, name: string, password: string, again: string)
    requires GoodState(s) && ValidName(name) && name !in s.table.accounts
    requires ValidPassword(StripCr(password)) && ValidPassword(StripCr(again))
    ensures var n := |s.sessions|;
            var (after, fate) := Served(s, SigningUp(n, name, password) + Entering(n + 1, name, again));
            && fate == Fine && |after.sessions| == n + 2
            && after.sessions[n].loggedIn && after.sessions[n].name == after.sessions[n + 1].name == Some(name)
            && (after.sessions[n + 1].loggedIn <==> StripCr(again) == StripCr(password))
  {
    var n := |s.sessions|;
    var s1 := Served(s, SigningUp(n, name, password)).0;
    SignsUp(s, name, password);
    RunKeepsGood(s, SigningUp(n, name, password));
    Enters(s1, name, again);
    hide GoodState, Served;
    ServedInTwo(s, SigningUp(n, name, password), Entering(n + 1, name, again));
    var after := Served(s1, Entering(n + 1, name, again)).0;
    assert after.sessions[n] == after.sessions[..n + 1][n];
  }

  lemma TextsOfGreeting()
    ensures TextOf(Welcome) == "Welcome to the chat relay!\n" + "Please enter your username: "
    ensures TextOf(AskPassword) == "\nSRV: Please enter " + "your password: "
  {
  }

  lemma TextsOfSigningUp(name: string)
    ensures TextOf(AskNewAccount) == "SRV: No user has found, " + "would you like to a account? (y/n): "
    ensures TextOf(Hello) == "SRV: Hello @" && TextOf(Exclamation) == "!\n" && TextOf(Username(name)) == name
  {
  }

  /** What the client has been sent when it has signed up. */
  lemma SigningUpReads(name: string)
    ensures AllBytes(Greeted(name) + [StringLiteral(AskNewAccount), StringLiteral(Hello),
                                      StringLiteral(Username(name)), StringLiteral(Exclamation)])
         == Flatten(["Welcome to the chat relay!\n" + "Please enter your username: ",
                     "SRV: Hello @", name, "\nSRV: Please enter " + "your password: ",
                     "SRV: No user has found, " + "would you like to a account? (y/n): ",
                     "SRV: Hello @", name, "!\n"])
  {
    TextsOfGreeting();
    TextsOfSigningUp(name);
    hide TextOf, Flatten;
    var ps := Greeted(name) + [StringLiteral(AskNewAccount), StringLiteral(Hello),
                               StringLiteral(Username(name)), StringLiteral(Exclamation)];
    assert Texts(ps) == [TextOf(Welcome), TextOf(Hello), name, TextOf(AskPassword), TextOf(AskNewAccount),
                         TextOf(Hello), name, TextOf(Exclamation)];
  }

  // ------------------------------------------------ joining and leaving

  lemma ObeyingBoth(t: Table, user: string, name: string, password: string)
    requires IsKept(t) && user in t.accounts && !IsMember(t, user, name)
    requires name in t.rooms ==> t.rooms[name].password == password
    ensures Obey(Obey(t, user, DoSubscribe(name, password)), user, DoUnsubscribe(name)) == t
  {
    var joined := Obey(t, user, DoSubscribe(name, password));
    assert !HasJoined(t, user, name);
    WithoutAppended(t.accounts[user].joined, name);
    if name in t.rooms {
      WithoutAppended(t.rooms[name].members, user);
    } else {
      WithoutAppended([], user);
      assert [] + [user] == [user];
    }
    assert Obey(joined, user, DoUnsubscribe(name)).rooms == t.rooms;
    assert Obey(joined, user, DoUnsubscribe(name)).accounts == t.accounts;
  }

  /** Leaving a channel right after having joined it, or made it, leaves no trace in accounts and
      channels. */
  lemma LeavingUndoesJoining(s: State, i: nat, user: string, name: string, password: string)
    requires GoodState(s) && i < |s.sessions| && s.sessions[i].loggedIn && s.sessions[i].name == Some(user)
    requires PlainWord(name) && PlainWord(password) && !IsMember(s.table, user, name)
    requires name in s.table.rooms ==> s.table.rooms[name].password == password
    ensures var (after, fate) := Served(s, [Types(i, "/subscribe " + name + " " + password + " ")]
                                           + [Types(i, "/unsubscribe " + name + " ")]);
            fate == Fine && after.table == s.table
  {
    var join, leave := "/subscribe " + name + " " + password + " ", "/unsubscribe " + name + " ";
    assert GoodSession(s.table.accounts, s.sessions[i]);
    SubscribeIsRead(name, password, " ");
    UnsubscribeIsRead(name, " ");
    hide GoodState, ParseLine;
    assert Commands(s, i, user, join, Subscribe, [name, password]);
    JoinAndLeave(s, i, user, join, leave, name, password);
  }

  lemma JoinAndLeave(s: State, i: nat, user: string, join: string, leave: string, name: string, password: string)
    requires GoodState(s) && user in s.table.accounts && !IsMember(s.table, user, name)
    requires name in s.table.rooms ==> s.table.rooms[name].password == password
    requires Commands(s, i, user, join, Subscribe, [name, password])
    requires ParseLine(leave) == Accepted(Command(Unsubscribe, [name]))
    ensures var (after, fate) := Served(s, [Types(i, join)] + [Types(i, leave)]);
            fate == Fine && after.table == s.table
  {
    var s1 := Step(s, Types(i, join)).0;
    assert IsKept(s.table);
    CommandIsRun(s, i, user, join, [], true, Subscribe, [name, password]);
    CommandIsRun(s1, i, user, leave, [], true, Unsubscribe, [name]);
    ObeyingBoth(s.table, user, name, password);
    hide GoodState, Step, ParseLine, Obey, ReplyTo;
    ServedOnce(s, Types(i, join));
    ServedOneMore(s, [Types(i, join)], Types(i, leave));
  }

  // ---------------------------------------------- a deletion that goes wrong

  /** Whoever deletes a channel of their own that is not the first on their list makes it go
      wrong. */
  lemma DeletesTheWrongOne(s: State, i: nat, user: string, name: string)
    requires GoodState(s) && i < |s.sessions| && s.sessions[i].loggedIn && s.sessions[i].name == Some(user)
    requires PlainWord(name) && IsMember(s.table, user, name)
    requires user in s.table.accounts && s.table.accounts[user].joined[..1] != [name]
    ensures Step(s, Types(i, "/delete " + name + " ")).1 == WrongChannel
  {
    DeleteIsRead(name, " ");
    DeletingRemoves(s, i, user, "/delete " + name + " ", [], true, name);
    hide Step, ParseLine;
  }

  /** Two channels, and the second deleted, is enough: such a run ends with a deletion that has
      gone wrong. */
  lemma WrongChannelIsReached(name: string, password: string, first: string, second: string, key: string)
    requires ValidName(name) && ValidPassword(StripCr(password))
    requires PlainWord(first) && PlainWord(second) && PlainWord(key) && first != second
    ensures Served(EMPTY, SigningUp(0, name, password)
                          + [Types(0, "/subscribe " + first + " " + key + " ")]
                          + [Types(0, "/subscribe " + second + " " + key + " ")]
                          + [Types(0, "/delete " + second + " ")]).1 == WrongChannel
  {
    var events := SigningUp(0, name, password);
    var one, two := "/subscribe " + first + " " + key + " ", "/subscribe " + second + " " + key + " ";
    EmptyIsGood();
    SignsUp(EMPTY, name, password);
    RunKeepsGood(EMPTY, events);
    SubscribeIsRead(first, key, " ");
    SubscribeIsRead(second, key, " ");
    var s := Served(EMPTY, events).0;
    hide GoodState, ParseLine, Served, SigningUp;
    SubscribingJoins(s, 0, name, one, [], true, first, key);
    StepKeeps(s, Types(0, one));
    var s1 := Step(s, Types(0, one)).0;
    SubscribingJoins(s1, 0, name, two, [], true, second, key);
    StepKeeps(s1, Types(0, two));
    var s2 := Step(s1, Types(0, two)).0;
    hide Step;
    DeletesTheWrongOne(s2, 0, name, second);
    ServedOneMore(EMPTY, events, Types(0, one));
    ServedOneMore(EMPTY, events + [Types(0, one)], Types(0, two));
    ServedOneMore(EMPTY, events + [Types(0, one)] + [Types(0, two)], Types(0, "/delete " + second + " "));
  }
}
