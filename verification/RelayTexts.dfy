/** What looks like a message to a client: the letters, and nothing else the server sends. */
module RelayTexts {
  import opened Payloads
  import opened Messages
  import opened Replies
  import opened Outboxes
  import opened Rooms
  import opened Relay
  import opened RelayLaws

  /** If the line is a name with a NUL behind it, no bytes left by the allocator behind the copy of
      the name look like a message. */
  predicate IsTidy(raw: string, junk: string) {
    var line := StripCr(raw);
    NUL in line && ValidName(CText(line)) ==> IsPlain(Copied(line, junk))
  }

  /** The lines of connection j are tidy. */
  predicate TidyOn(events: seq<Event>, j: nat) {
    forall e | e in events && e.Reads? && e.conn == j && e.line.Some? :: IsTidy(e.line.value, e.junk)
  }

  lemma NameIsPlain(name: string)
    requires HasNameChars(name)
    ensures IsPlain(name)
  {
    assert forall i | 0 <= i < |name| :: name[i] in name;
  }

  predicate IsQuiet(p: Outgoing) {
    !p.Letter? && IsPlain(Bytes(p))
  }

  lemma LiteralIsQuiet(literal: Literal)
    requires literal.Username? ==> HasNameChars(literal.name)
    ensures IsQuiet(StringLiteral(literal))
  {
    hide IsPlain, TextOf;
    if literal.Username? {
      NameIsPlain(literal.name);
    }
    TextIsPlain(literal);
  }

  lemma {:induction false} ListedIsQuiet(members: seq<string>, k: nat, leaving: bool)
    requires k <= |members| && forall m | m in members :: ValidName(m)
    ensures forall p | p in Listed(members, k, leaving) :: IsQuiet(p)
  {
    hide IsQuiet;
    if k > 0 {
      ListedIsQuiet(members, k - 1, leaving);
      LiteralIsQuiet(Comma);
      assert members[k - 1] in members;
      BuffIsQuiet(members[k - 1]);
    }
  }

  lemma BuffIsQuiet(name: string)
    requires HasNameChars(name)
    ensures IsQuiet(Buff(name))
  {
    NameIsPlain(name);
  }

  lemma QuietlyTold(s: Session, ps: seq<Outgoing>)
    requires OnlyLettersShow(s.queue) && forall p | p in ps :: IsQuiet(p)
    ensures OnlyLettersShow(Told(s, ps).queue)
  {
    hide IsPlain;
  }

  lemma EntryIsQuiet(s: Session, line: string, junk: string)
    requires NUL in line && ValidName(CText(line)) ==> IsPlain(Copied(line, junk))
    ensures forall p | p in EntryReply(s, line, junk) :: IsQuiet(p)
  {
    hide IsQuiet;
    LiteralIsQuiet(IllegalName);
    LiteralIsQuiet(NameLength);
    LiteralIsQuiet(Hello);
    LiteralIsQuiet(AskPassword);
    LiteralIsQuiet(PasswordHasNul);
    LiteralIsQuiet(PasswordLength);
    CopyIsQuiet(line, junk);
  }

  lemma CopyIsQuiet(line: string, junk: string)
    requires NUL in line && ValidName(CText(line)) ==> IsPlain(Copied(line, junk))
    ensures ValidName(CText(line)) ==> IsQuiet(Buff(Copied(line, junk)))
  {
    if NUL !in line && ValidName(CText(line)) {
      assert CText(line) == line;
      NameIsPlain(line);
    }
  }

  lemma DecisionIsQuiet(accounts: AccountMap, s: Session, line: string)
    requires OnlyLettersShow(s.queue) && (s.name.Some? ==> ValidName(s.name.value))
    ensures OnlyLettersShow(Decided(accounts, s, line).queue)
  {
    hide IsQuiet, OnlyLettersShow;
    if s.name.Some? && s.password.Some? {
      var name := s.name.value;
      LiteralIsQuiet(Hello);
      LiteralIsQuiet(Username(name));
      LiteralIsQuiet(Exclamation);
      LiteralIsQuiet(CannotCreateUser);
      LiteralIsQuiet(ExitBye);
      LiteralIsQuiet(WrongPassword);
      LiteralIsQuiet(AskNewAccount);
      BuffIsQuiet(name);
      QuietlyTold(s, [StringLiteral(Hello), StringLiteral(Username(name)), StringLiteral(Exclamation)]);
      QuietlyTold(s, [StringLiteral(CannotCreateUser)]);
      QuietlyTold(s, [StringLiteral(ExitBye)]);
      QuietlyTold(s, [StringLiteral(WrongPassword)]);
      QuietlyTold(s, [StringLiteral(AskNewAccount)]);
      QuietlyTold(s, [StringLiteral(Hello)] + Sent(s.leaving, name) + [StringLiteral(Exclamation)]);
    }
  }

  lemma EntryStaysPlain(s: State, i: nat, raw: string, junk: string)
    requires GoodState(s) && i < |s.sessions| && OnlyLettersShow(s.sessions[i].queue) && IsTidy(raw, junk)
    ensures OnlyLettersShow(AfterEntry(s, i, raw, junk).0.sessions[i].queue)
  {
    var me, line := s.sessions[i], StripCr(raw);
    assert GoodSession(s.table.accounts, me);
    hide GoodState, OnlyLettersShow;
    EntryIsQuiet(me, line, junk);
    QuietlyTold(me, EntryReply(me, line, junk));
    DecisionIsQuiet(s.table.accounts, Entered(me, line, junk), line);
  }

  lemma CommandIsQuiet(t: Table, s: Session, user: string, kind: Kind, args: seq<string>)
    requires IsKept(t) && GoodAccounts(t.accounts) && OnlyLettersShow(s.queue) && |args| == Arity(kind)
    ensures OnlyLettersShow(AfterCommand(t, s, user, kind, args).1.queue)
  {
    hide IsQuiet, OnlyLettersShow;
    match OrderOf(kind, args)
    case Some(order) =>
      LiteralIsQuiet(OfReply(ReplyTo(t, user, order)));
      QuietlyTold(s, [StringLiteral(OfReply(ReplyTo(t, user, order)))]);
    case None =>
      LiteralIsQuiet(Bye);
      QuietlyTold(s, [StringLiteral(Bye)]);
      if kind == ListUsers {
        ListIsQuiet(t, user, args[0], s.leaving);
        QuietlyTold(s, ListReply(t, user, args[0], s.leaving));
      }
  }

  lemma ListIsQuiet(t: Table, user: string, name: string, leaving: bool)
    requires IsKept(t) && GoodAccounts(t.accounts)
    ensures forall p | p in ListReply(t, user, name, leaving) :: IsQuiet(p)
  {
    hide IsQuiet;
    LiteralIsQuiet(UsersAre);
    LiteralIsQuiet(Newline);
    LiteralIsQuiet(OfReply(NotInChannel));
    if IsMember(t, user, name) {
      var members := t.rooms[name].members;
      forall m | m in members
        ensures ValidName(m)
      {
        assert IsMember(t, m, name);
      }
      ListedIsQuiet(members, |members|, leaving);
    }
  }

  lemma MessageIsQuiet(t: Table, sessions: seq<Session>, i: nat, sender: string, m: Message, j: nat)
    requires j < |sessions| && OnlyLettersShow(sessions[j].queue)
    ensures OnlyLettersShow(AfterMessage(t, sessions, i, sender, m, j).queue)
  {
    hide IsPlain, TextOf;
    LiteralIsQuiet(ChannelNotFound);
    LiteralIsQuiet(NotSubscribed);
  }

  lemma PayloadStaysPlain(s: State, i: nat, user: string, raw: string, spare: bool, j: nat)
    requires GoodState(s) && i < |s.sessions| && j < |s.sessions| && OnlyLettersShow(s.sessions[j].queue)
    ensures OnlyLettersShow(AfterPayload(s, i, user, raw, spare).0.sessions[j].queue)
  {
    var me := s.sessions[i];
    hide OnlyLettersShow, GoodState, AfterCommand;
    match ParseLine(raw)
    case Rejected =>
      if j == i {
        LiteralIsQuiet(InvalidCommand);
        QuietlyTold(me, [StringLiteral(InvalidCommand)]);
      }
    case Crashed =>
    case Accepted(Command(kind, args)) =>
      if j == i {
        TableIsKept(s);
        CommandIsQuiet(s.table, me, user, kind, args);
      }
    case Accepted(Msg(m)) => MessageIsQuiet(s.table, s.sessions, i, user, m, j);
  }

  lemma TableIsKept(s: State)
    requires GoodState(s)
    ensures IsKept(s.table) && GoodAccounts(s.table.accounts)
  {
  }

  lemma StepStaysPlain(s: State, e: Event, j: nat)
    requires GoodState(s) && j < |Step(s, e).0.sessions| && TidyOn([e], j)
    requires j < |s.sessions| ==> OnlyLettersShow(s.sessions[j].queue)
    ensures OnlyLettersShow(Step(s, e).0.sessions[j].queue)
  {
    match e
    case Connect =>
      LiteralIsQuiet(Welcome);
      QuietlyTold(NOBODY.(queue := []), [StringLiteral(Welcome)]);
    case Reads(i, line, junk, spare) =>
      assert e in [e];
      hide GoodState, OnlyLettersShow, AfterLogin, AfterPayload;
      if i < |s.sessions| && line.Some? {
        if s.sessions[i].name.Some? {
          SameLength(s, i, s.sessions[i].name.value, line.value, spare);
          PayloadStaysPlain(s, i, s.sessions[i].name.value, line.value, spare, j);
        }
        if i == j {
          EntryStaysPlain(s, i, line.value, junk);
        }
      }
  }

  lemma SameLength(s: State, i: nat, user: string, raw: string, spare: bool)
    requires i < |s.sessions|
    ensures |AfterPayload(s, i, user, raw, spare).0.sessions| == |s.sessions|
  {
  }

  /** To a client whose own lines are tidy nothing but letters ever looks like a message. */
  lemma {:induction false} RunStaysPlain(s: State, events: seq<Event>, j: nat)
    requires GoodState(s) && TidyOn(events, j) && j < |Served(s, events).0.sessions|
    requires j < |s.sessions| ==> OnlyLettersShow(s.sessions[j].queue)
    ensures OnlyLettersShow(Served(s, events).0.sessions[j].queue)
    decreases |events|
  {
    hide GoodState, OnlyLettersShow;
    if events != [] {
      var next := Step(s, events[0]).0;
      assert TidyOn([events[0]], j) && TidyOn(events[1..], j);
      StepKeeps(s, events[0]);
      if j < |next.sessions| {
        StepStaysPlain(s, events[0], j);
      }
      if Step(s, events[0]).1 == Fine {
        RunStaysPlain(next, events[1..], j);
      }
    }
  }
}
