/** What each line does to a connection that is not logged in, spelled out. */
module RelayLogin {
  import opened Collections
  import opened Framing
  import opened Payloads
  import opened Replies
  import opened Outboxes
  import opened Rooms
  import opened Relay
  import opened RelayLaws

  // ------------------------------------------------- the name, the password

  /** The characters of a legal name. */
  predicate IsLegal(text: string) {
    forall c | c in text :: ('a' <= c <= 'z') || ('A' <= c <= 'Z') || ('0' <= c <= '9') || c == '_'
  }

  /** The line is the text, or goes on behind it with a NUL; the text has none. */
  predicate IsCTextOf(text: string, line: string) {
    text <= line && NUL !in text && (|text| < |line| ==> line[|text|] == NUL)
  }

  /** From that position on the copy holds what the allocator left, as far as that is given. */
  predicate IsFilledUp(copy: string, from: nat, junk: string) {
    forall k | from <= k < |copy| && k - from < |junk| :: copy[k] == junk[k - from]
  }

  lemma CTextIs(text: string, line: string)
    requires IsCTextOf(text, line)
    ensures CText(line) == text
  {
    assert line[..|text|] == text;
    FindNotBefore(line, NUL, |text|);
    if |text| < |line| {
      assert line == text + [NUL] + line[|text| + 1..];
      FindIsFirst(text, NUL, line[|text| + 1..]);
    }
  }

  /** A line for a connection without a name: it is taken for the name up to its first NUL, and
      asked for again unless it has 2 to 20 letters, digits and underscores. */
  lemma NameIsRead(s: State, i: nat, raw: string, junk: string, spare: bool, text: string)
    requires GoodState(s) && i < |s.sessions| && s.sessions[i].name == None
    requires raw != [] && IsCTextOf(text, StripCr(raw))
    ensures var me, line, (after, fate) := s.sessions[i], StripCr(raw), Step(s, Reads(i, Some(raw), junk, spare));
            && fate == Fine
            && (!IsLegal(text) ==>
                  after == State(s.table, s.sessions[i := me.(queue := me.queue + [StringLiteral(IllegalName)])]))
            && (IsLegal(text) && !(2 <= |text| <= 20) ==>
                  after == State(s.table, s.sessions[i := me.(queue := me.queue + [StringLiteral(NameLength)])]))
            && (IsLegal(text) && 2 <= |text| <= 20 ==>
                  exists copy :: |copy| == |line| && IsCTextOf(text, copy) && IsFilledUp(copy, |text| + 1, junk)
                    && after == State(s.table, s.sessions[i := me.(
                         name := Some(text),
                         queue := me.queue + ([StringLiteral(Hello)] + (if me.leaving then [] else [Buff(copy)])
                                              + [StringLiteral(AskPassword)]))]))
  {
    var me, line := s.sessions[i], StripCr(raw);
    assert GoodSession(s.table.accounts, me);
    hide GoodState, GoodSession;
    CTextIs(text, line);
    CopyStartsSo(line, junk, text);
    assert IsCTextOf(text, Copied(line, junk)) && IsFilledUp(Copied(line, junk), |text| + 1, junk);
    hide IsCTextOf, IsFilledUp, Copied, CText;
  }

  lemma CopyStartsSo(line: string, junk: string, text: string)
    requires IsCTextOf(text, line)
    ensures |Copied(line, junk)| == |line| && IsCTextOf(text, Copied(line, junk))
    ensures IsFilledUp(Copied(line, junk), |text| + 1, junk)
  {
    CTextIs(text, line);
  }

  /** A line that cannot be the password is not taken for it, and nothing else happens. */
  lemma BadPasswordIsRead(s: State, i: nat, raw: string, junk: string, spare: bool)
    requires GoodState(s) && i < |s.sessions| && !s.sessions[i].loggedIn
    requires s.sessions[i].name.Some? && s.sessions[i].password == None
    requires raw != [] && (NUL in StripCr(raw) || !(8 <= |StripCr(raw)| <= 64))
    ensures var me, said := s.sessions[i], if NUL in StripCr(raw) then PasswordHasNul else PasswordLength;
            Step(s, Reads(i, Some(raw), junk, spare))
            == (State(s.table, s.sessions[i := me.(queue := me.queue + [StringLiteral(said)])]), Fine)
  {
    hide GoodState;
  }

  // ------------------------------------------------------- the decision

  /** The connection has a name and, counting this line, a password. */
  predicate Tries(me: Session, name: string, password: string, line: string) {
    && !me.loggedIn && me.name == Some(name)
    && (me.password == Some(password)
        || (me.password == None && password == line && 8 <= |line| <= 64 && NUL !in line))
  }

  lemma DecisionIsRead(s: State, i: nat, raw: string, junk: string, spare: bool, name: string, password: string)
    requires i < |s.sessions| && raw != [] && !s.sessions[i].freed
    requires Tries(s.sessions[i], name, password, StripCr(raw))
    ensures var accounts, me, line := s.table.accounts, s.sessions[i].(password := Some(password)), StripCr(raw);
            Step(s, Reads(i, Some(raw), junk, spare))
            == (State(Table(AccountsWith(accounts, me, line), s.table.rooms),
                      s.sessions[i := Decided(accounts, me, line)]), Fine)
  {
    var me, line := s.sessions[i], StripCr(raw);
    assert me.queue + [] == me.queue;
    assert Entered(me, line, junk) == me.(password := Some(password));
    hide Entered, Decided, AccountsWith, LooksAtName;
  }

  /** Yes makes the account, and logs in to it; unless there is one of that name by now: then the
      connection ends, and what it has entered is freed. */
  lemma YesIsRead(s: State, i: nat, raw: string, junk: string, spare: bool, name: string, password: string)
    requires i < |s.sessions| && raw != [] && !s.sessions[i].freed && s.sessions[i].asked
    requires Tries(s.sessions[i], name, password, StripCr(raw))
    requires StripCr(raw) != [] && StripCr(raw)[0] == 'y'
    ensures var accounts, me := s.table.accounts, s.sessions[i].(password := Some(password));
            Step(s, Reads(i, Some(raw), junk, spare))
            == if name in accounts then
                 (State(s.table, s.sessions[i := me.(
                    leaving := true, freed := true, queue := me.queue + [StringLiteral(CannotCreateUser)])]), Fine)
               else
                 (State(Table(accounts[name := Account(password, [])], s.table.rooms),
                        s.sessions[i := me.(
                          loggedIn := true,
                          queue := me.queue + [StringLiteral(Hello), StringLiteral(Username(name)),
                                               StringLiteral(Exclamation)])]), Fine)
  {
    DecisionIsRead(s, i, raw, junk, spare, name, password);
    hide Step;
  }

  /** No makes none, and ends the connection. */
  lemma NoIsRead(s: State, i: nat, raw: string, junk: string, spare: bool, name: string, password: string)
    requires i < |s.sessions| && raw != [] && !s.sessions[i].freed && s.sessions[i].asked
    requires Tries(s.sessions[i], name, password, StripCr(raw))
    requires StripCr(raw) != [] && StripCr(raw)[0] == 'n'
    ensures var me := s.sessions[i].(password := Some(password));
            Step(s, Reads(i, Some(raw), junk, spare))
            == (State(s.table, s.sessions[i := me.(
                  leaving := true, queue := me.queue + [StringLiteral(ExitBye)])]), Fine)
  {
    DecisionIsRead(s, i, raw, junk, spare, name, password);
    hide Step;
  }

  /** The line does not answer the question whether to make an account. */
  predicate IsNoAnswer(me: Session, line: string) {
    me.asked && line != [] ==> line[0] != 'y' && line[0] != 'n'
  }

  /** Without an answer to take, the password is compared: the connection is logged in if and only
      if it is that of the account. A wrong one is forgotten and asked for again; and if there is
      no such account, the client is asked whether to make one. */
  lemma PasswordIsCompared(s: State, i: nat, raw: string, junk: string, spare: bool, name: string, password: string)
    requires i < |s.sessions| && raw != [] && !s.sessions[i].freed
    requires Tries(s.sessions[i], name, password, StripCr(raw)) && IsNoAnswer(s.sessions[i], StripCr(raw))
    ensures var accounts, me, (after, fate) :=
              s.table.accounts, s.sessions[i].(password := Some(password)), Step(s, Reads(i, Some(raw), junk, spare));
            && fate == Fine && |after.sessions| == |s.sessions|
            && (after.sessions[i].loggedIn <==> name in accounts && accounts[name].password == password)
            && after
               == State(s.table, s.sessions[i :=
                    if name !in accounts then
                      me.(asked := true, queue := me.queue + [StringLiteral(AskNewAccount)])
                    else if accounts[name].password == password then
                      me.(loggedIn := true, password := None,
                          queue := me.queue + ([StringLiteral(Hello)] + (if me.leaving then [] else [Buff(name)])
                                               + [StringLiteral(Exclamation)]))
                    else
                      me.(password := None, queue := me.queue + [StringLiteral(WrongPassword)])])
  {
    DecisionIsRead(s, i, raw, junk, spare, name, password);
    hide Step;
  }

  // ------------------------------------------------ lines of no use, no lines

  /** An empty line reads the byte before it; a NULL line frees what was entered; and once that
      is freed, another NULL line, or a line that has the name looked at, uses it. */
  lemma NothingIsRead(s: State, i: nat, line: Option<string>, junk: string, spare: bool)
    requires GoodState(s) && i < |s.sessions| && !s.sessions[i].loggedIn
    requires line == None || line.value == []
    ensures var me := s.sessions[i];
            Step(s, Reads(i, line, junk, spare))
            == if line.Some? then (s, ReadsBeforeBuffer)
               else if me.name == None then (s, Fine)
               else if me.freed then (s, UsesFreedMemory)
               else (State(s.table, s.sessions[i := me.(freed := true)]), Fine)
  {
  }

  /** After the login a NULL line does nothing. */
  lemma EndIsRead(s: State, i: nat, junk: string, spare: bool)
    requires i < |s.sessions| && s.sessions[i].loggedIn
    ensures Step(s, Reads(i, None, junk, spare)) == (s, Fine)
  {
  }
}
