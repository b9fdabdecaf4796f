/** The server as its users know it: chatd/net/connection/handle_payload.cpp and
    chatd/protocol/command.cpp, one step for each line of each connection. */
module Relay {
  import opened Collections
  import opened Framing
  import opened Payloads
  import opened Messages
  import opened Outboxes
  import opened Replies
  import opened Rooms

  /** A connection: what it has entered, whether it is logged in (as `name`), whether it has been
      asked to create an account, whether it is terminating, whether the buffers of `name` and
      `password` have been freed, and everything that has been queued for it. */
  datatype Session = Session(
    name: Option<string>,
    password: Option<string>,
    loggedIn: bool,
    asked: bool,
    leaving: bool,
    freed: bool,
    queue: seq<Outgoing>)

  datatype State = State(table: Table, sessions: seq<Session>)

  /** A connection is accepted, or one of them reads a line. `None` is the NULL that `readuntil`
      gives for an empty line it finds while reading, and what the receive thread passes when it
      ends. The allocator is part of the run: `junk` is what it left in the copy of a name, and
      `spare` tells whether there is a byte to spare behind the blocks it gave. */
  datatype Event = Connect | Reads(conn: nat, line: Option<string>, junk: string, spare: bool)

  /** How a step ends: well; in a memory access through a null pointer, before or behind a block,
      or to freed memory (freeing it again included); or with a deletion that went wrong. */
  datatype Fate = Fine | NullCommand | ReadsBeforeBuffer | WritesPastBlock | UsesFreedMemory | WrongChannel

  const NOBODY := Session(None, None, false, false, false, false, [StringLiteral(Welcome)])

  const EMPTY := State(Table(map[], map[]), [])

  function Told(s: Session, ps: seq<Outgoing>): Session {
    s.(queue := s.queue + ps)
  }

  // ------------------------------------------------------------- logging in

  predicate ValidPassword(password: string) {
    8 <= |password| <= 64 && NUL !in password
  }

  /** The C string at the start of a line. */
  function CText(line: string): string {
    line[..Find(line, NUL)]
  }

  /** The name a connection has entered, after one more line. */
  function NameAfter(name: Option<string>, line: string): Option<string> {
    if name.Some? then name
    else if ValidName(CText(line)) then Some(CText(line))
    else None
  }

  /** The password it has entered; a line that completes the name is not taken for one. */
  function PasswordAfter(name: Option<string>, password: Option<string>, line: string): Option<string> {
    if name == None || password.Some? then password
    else if ValidPassword(line) then Some(line)
    else None
  }

  /** A name and a password have been entered, counting this line. */
  predicate HasBoth(s: Session, line: string) {
    NameAfter(s.name, line).Some? && PasswordAfter(s.name, s.password, line).Some?
  }

  /** The copy of a name that is sent back: as many bytes as the line has, though only its C
      string has been copied. */
  function Copied(line: string, junk: string): string {
    var n := Find(line, NUL);
    if n == |line| then line
    else line[..n + 1] + seq(|line| - n - 1, i requires 0 <= i => if i < |junk| then junk[i] else NUL)
  }

  predicate HasNameChars(text: string) {
    forall c | c in text :: IsNameChar(c)
  }

  function EntryReply(s: Session, line: string, junk: string): seq<Outgoing> {
    if s.name == None then
      if !HasNameChars(CText(line)) then
        [StringLiteral(IllegalName)]
      else if !ValidName(CText(line)) then
        [StringLiteral(NameLength)]
      else
        [StringLiteral(Hello)] + Sent(s.leaving, Copied(line, junk))
        + [StringLiteral(AskPassword)]
    else if s.password == None then
      if NUL in line then [StringLiteral(PasswordHasNul)]
      else if !ValidPassword(line) then
        [StringLiteral(PasswordLength)]
      else []
    else []
  }

  /** Lines 100-147 of the source: the line is taken for a name or a password, if one is
      missing. */
  function Entered(s: Session, line: string, junk: string): Session {
    s.(name := NameAfter(s.name, line),
       password := PasswordAfter(s.name, s.password, line),
       queue := s.queue + EntryReply(s, line, junk))
  }

  /** The line answers the question whether to create an account. */
  predicate IsAnswer(asked: bool, line: string, letter: char) {
    asked && line != [] && line[0] == letter
  }

  /** Lines 151-169 of the source: the answer is yes, or no. The account that is refused takes the
      entered name and password with it (`User::~User`). */
  function Answered(accounts: AccountMap, s: Session, yes: bool): Session
    requires s.name.Some?
  {
    if !yes then Told(s, [StringLiteral(ExitBye)]).(leaving := true)
    else if s.name.value in accounts then
      Told(s, [StringLiteral(CannotCreateUser)]).(leaving := true, freed := true)
    else
      Told(s, [StringLiteral(Hello), StringLiteral(Username(s.name.value)), StringLiteral(Exclamation)])
        .(loggedIn := true)
  }

  /** Lines 170-189 of the source: no answer is due. */
  function Compared(accounts: AccountMap, s: Session): Session
    requires s.name.Some? && s.password.Some?
  {
    var name := s.name.value;
    if name !in accounts then Told(s, [StringLiteral(AskNewAccount)]).(asked := true)
    else if accounts[name].password != s.password.value then
      Told(s, [StringLiteral(WrongPassword)]).(password := None)
    else
      Told(s, [StringLiteral(Hello)] + Sent(s.leaving, name) + [StringLiteral(Exclamation)])
        .(loggedIn := true, password := None)
  }

  function Decided(accounts: AccountMap, s: Session, line: string): Session {
    if s.name == None || s.password == None then s
    else if IsAnswer(s.asked, line, 'y') then Answered(accounts, s, true)
    else if IsAnswer(s.asked, line, 'n') then Answered(accounts, s, false)
    else Compared(accounts, s)
  }

  /** The line creates an account. */
  predicate Creates(accounts: AccountMap, s: Session, line: string) {
    s.name.Some? && s.password.Some? && IsAnswer(s.asked, line, 'y') && s.name.value !in accounts
  }

  /** Lines 149-190 look at the entered name again: to create the account, or to compare it with
      those there are. */
  predicate LooksAtName(accounts: AccountMap, s: Session, line: string) {
    HasBoth(s, line)
    && (IsAnswer(s.asked, line, 'y') || (!IsAnswer(s.asked, line, 'n') && accounts != map[]))
  }

  function AccountsWith(accounts: AccountMap, s: Session, line: string): AccountMap {
    if Creates(accounts, s, line) then accounts[s.name.value := Account(s.password.value, [])] else accounts
  }

  function AfterLogin(accounts: AccountMap, s: Session, line: string, junk: string): (AccountMap, Session) {
    var entered := Entered(s, line, junk);
    (AccountsWith(accounts, entered, line), Decided(accounts, entered, line))
  }

  // --------------------------------------------------------------- commands

  /** The first k names of a list, as `/list_users` sends them. */
  function Listed(members: seq<string>, k: nat, leaving: bool): seq<Outgoing>
    requires k <= |members|
  {
    if k == 0 then []
    else
      Listed(members, k - 1, leaving) + Sent(leaving, members[k - 1])
      + if k != |members| then [StringLiteral(Comma)] else []
  }

  function ListReply(t: Table, user: string, name: string, leaving: bool): seq<Outgoing> {
    if IsMember(t, user, name) then
      [StringLiteral(UsersAre)]
      + Listed(t.rooms[name].members, |t.rooms[name].members|, leaving)
      + [StringLiteral(Newline)]
    else [StringLiteral(OfReply(NotInChannel))]
  }

  /** The order a command gives; listing and logging out change no room. */
  function OrderOf(kind: Kind, args: seq<string>): Option<Order>
    requires |args| == Arity(kind)
  {
    match kind
    case Subscribe => Some(DoSubscribe(args[0], args[1]))
    case Unsubscribe => Some(DoUnsubscribe(args[0]))
    case Delete => Some(DoDelete(args[0]))
    case ListUsers => None
    case Logout => None
  }

  /** A deletion that does not do what it should ends the run. */
  predicate GoesWrong(t: Table, user: string, order: Order) {
    order.DoDelete? && IsMember(t, user, order.name) && !HitsItsRoom(t, user, order.name)
  }

  /** `/list_users` copies every name it sends into a block without room for the NUL. */
  predicate Overflows(t: Table, user: string, kind: Kind, args: seq<string>, spare: bool)
    requires |args| == Arity(kind)
  {
    kind == ListUsers && IsMember(t, user, args[0]) && !spare
  }

  function CommandFate(t: Table, user: string, kind: Kind, args: seq<string>, spare: bool): Fate
    requires |args| == Arity(kind)
  {
    if Overflows(t, user, kind, args, spare) then WritesPastBlock
    else if OrderOf(kind, args).Some? && GoesWrong(t, user, OrderOf(kind, args).value) then WrongChannel
    else Fine
  }

  function AfterCommand(t: Table, s: Session, user: string, kind: Kind, args: seq<string>): (Table, Session)
    requires |args| == Arity(kind)
  {
    match OrderOf(kind, args)
    case Some(order) => (Obey(t, user, order), Told(s, [StringLiteral(OfReply(ReplyTo(t, user, order)))]))
    case None =>
      if kind == ListUsers then (t, Told(s, ListReply(t, user, args[0], s.leaving)))
      else (t, Told(s, [StringLiteral(Bye)]).(leaving := true))
  }

  // --------------------------------------------------------------- messages

  /** How many copies of a message go to a connection. */
  function CopiesTo(t: Table, s: Session, sender: string, m: Message): nat {
    if !s.loggedIn || s.name == None then 0
    else
      var name := s.name.value;
      match m
      case Direct(to, _) => if name == to then 1 else 0
      case Group(to, _) => if name != sender && IsMember(t, sender, to) && IsMember(t, name, to) then 1 else 0
      case Global(_) => if name == sender then 0 else |SharedRooms(t, sender, name)|
  }

  function SharedRooms(t: Table, u: string, v: string): set<string> {
    set n | n in t.rooms && IsMember(t, u, n) && IsMember(t, v, n)
  }

  function MessageReply(t: Table, sender: string, m: Message): seq<Outgoing> {
    match m
    case Direct(_, _) => []
    case Group(to, _) => if IsMember(t, sender, to) then [] else [StringLiteral(ChannelNotFound)]
    case Global(_) =>
      if exists n | n in t.rooms :: IsMember(t, sender, n) then []
      else [StringLiteral(NotSubscribed)]
  }

  /** Connection j, once connection i has sent the message. */
  function AfterMessage(t: Table, sessions: seq<Session>, i: nat, sender: string, m: Message, j: nat): Session
    requires j < |sessions|
  {
    Told(Told(sessions[j], Copies(Letter(Delivery(m, sender)), CopiesTo(t, sessions[j], sender, m))),
         if j == i then MessageReply(t, sender, m) else [])
  }

  // ------------------------------------------------------------------ steps

  /** A line of connection i, which is logged in as that user. */
  function AfterPayload(s: State, i: nat, user: string, raw: string, spare: bool): (State, Fate)
    requires i < |s.sessions|
  {
    var me := s.sessions[i];
    match ParseLine(raw)
    case Rejected => (State(s.table, s.sessions[i := Told(me, [StringLiteral(InvalidCommand)])]), Fine)
    case Crashed => (s, NullCommand)
    case Accepted(Command(kind, args)) =>
      var (t, now) := AfterCommand(s.table, me, user, kind, args);
      var fate := CommandFate(s.table, user, kind, args, spare);
      (if fate == Fine then State(t, s.sessions[i := now]) else s, fate)
    case Accepted(Msg(m)) =>
      (State(s.table, seq(|s.sessions|, j requires 0 <= j < |s.sessions| =>
                          AfterMessage(s.table, s.sessions, i, user, m, j))), Fine)
  }

  /** A line of connection i, which is not. */
  function AfterEntry(s: State, i: nat, raw: string, junk: string): (State, Fate)
    requires i < |s.sessions|
  {
    var me, line := s.sessions[i], StripCr(raw);
    if raw == [] then (s, ReadsBeforeBuffer)
    else if me.freed && LooksAtName(s.table.accounts, me, line) then (s, UsesFreedMemory)
    else
      var (accounts, now) := AfterLogin(s.table.accounts, me, line, junk);
      (State(Table(accounts, s.table.rooms), s.sessions[i := now]), Fine)
  }

  /** Lines 15-24 of the source: a NULL line frees what has been entered, but does not forget it. */
  function AfterNull(s: State, i: nat): (State, Fate)
    requires i < |s.sessions|
  {
    var me := s.sessions[i];
    if me.loggedIn || me.name == None then (s, Fine)
    else if me.freed then (s, UsesFreedMemory)
    else (State(s.table, s.sessions[i := me.(freed := true)]), Fine)
  }

  function Step(s: State, e: Event): (State, Fate) {
    match e
    case Connect => (State(s.table, s.sessions + [NOBODY]), Fine)
    case Reads(i, line, junk, spare) =>
      if i >= |s.sessions| then (s, Fine)
      else if line == None then AfterNull(s, i)
      else if s.sessions[i].loggedIn && s.sessions[i].name.Some? then
        AfterPayload(s, i, s.sessions[i].name.value, line.value, spare)
      else AfterEntry(s, i, line.value, junk)
  }

  /** A run, up to the first step that does not end well. */
  function Served(s: State, events: seq<Event>): (State, Fate)
    decreases |events|
  {
    if events == [] then (s, Fine)
    else
      var (next, fate) := Step(s, events[0]);
      if fate != Fine then (next, fate) else Served(next, events[1..])
  }
}
