/** From the lines clients send to the lines clients see. */
module EndToEnd {
  import opened Collections
  import opened Framing
  import opened Payloads
  import opened PayloadLaws
  import opened Messages
  import opened Outboxes
  import Transmission
  import opened Rooms
  import opened Relay
  import opened RelayLaws
  import opened RelayTexts
  import opened TypedLines
  import opened RelayRuns
  import opened Pools
  import opened Sessions

  /** An accepted message line, passed on in the name of a valid user, shows its reader what was
      typed: the printed message is the line less its carriage return, and the reader sees its
      kind, its channel if any, its sender and its content. */
  lemma TypedLineIsShown(raw: string, m: Message, sender: string)
    requires ParseLine(raw) == Accepted(Msg(m)) && ValidName(sender)
    ensures Print(m) == StripCr(raw)
    ensures Decode(Line(Delivery(m, sender))) == Messages.Shows(Delivery(m, sender))
    ensures Line(Delivery(m, sender)) + "\n" == Render(Delivery(m, sender)) && '\n' !in Line(Delivery(m, sender))
  {
    AcceptedPrintsBack(raw, m);
    DecodeUndoesRender(Delivery(m, sender));
    LinesAreSingle(Delivery(m, sender));
  }

  /** What a reader makes of the text of any queue after any run: among the prompts and replies
      every letter is a line of its own that shows what it says; and if the lines of that
      connection are tidy, the letters are the only messages, all and in order. */
  lemma QueuesAreReadable(events: seq<Event>, i: nat)
    requires i < |Served(EMPTY, events).0.sessions|
    ensures var queue := Served(EMPTY, events).0.sessions[i].queue;
            forall k | 0 <= k < |queue| && queue[k].Letter? ::
              var before, lines := Lines(AllBytes(queue[..k]), '\n'), Lines(AllBytes(queue), '\n');
              |before| < |lines| && lines[..|before|] == before
              && Decode(lines[|before|]) == Messages.Shows(queue[k].d)
    ensures var queue := Served(EMPTY, events).0.sessions[i].queue;
            TidyOn(events, i) ==> MessagesIn(Lines(AllBytes(queue), '\n')) == LettersShown(queue)
  {
    var s := Served(EMPTY, events).0;
    var q := s.sessions[i];
    RunsFromTheStart(events);
    assert GoodSession(s.table.accounts, q);
    forall k | 0 <= k < |q.queue| && q.queue[k].Letter?
      ensures var before, lines := Lines(AllBytes(q.queue[..k]), '\n'), Lines(AllBytes(q.queue), '\n');
              |before| < |lines| && lines[..|before|] == before
              && Decode(lines[|before|]) == Messages.Shows(q.queue[k].d)
    {
      LetterIsShown(q.queue, k);
    }
    if TidyOn(events, i) {
      MessagesAreLetters(q.queue);
    }
  }

  /** What the client of connection j has to read. */
  ghost function MessagesFor(s: State, j: nat): seq<Seen>
    requires j < |s.sessions|
  {
    MessagesIn(Lines(AllBytes(s.sessions[j].queue), '\n'))
  }

  /** A message typed on connection i of a server that has served any events reaches every client
      whose own lines are tidy, if it is for that client: a direct message the connections of the
      user it names, once; any other, if its sender and the client's user, who is another one, are
      both in the channel, once; or, without a target, once for every channel they share. It says
      what was typed, and is all that is new to see. */
  lemma TypedMessageArrives(events: seq<Event>, i: nat, raw: string, junk: string, spare: bool, m: Message, j: nat)
    requires TidyOn(events, j)
    requires ParseLine(raw) == Accepted(Msg(m))
    requires var s := Served(EMPTY, events).0; i < |s.sessions| && j < |s.sessions| && s.sessions[i].loggedIn
    ensures var s := Served(EMPTY, events).0;
            var after, q := Step(s, Reads(i, Some(raw), junk, spare)).0, s.sessions[j];
            && s.sessions[i].name.Some? && |after.sessions| == |s.sessions|
            && var sender := s.sessions[i].name.value;
               MessagesFor(after, j)
               == MessagesFor(s, j)
                  + match m
                    case Direct(to, content) =>
                      if q.loggedIn && q.name == Some(to) then [SeenDirect(sender, content)] else []
                    case Group(to, content) =>
                      if q.loggedIn && q.name.Some? && q.name.value != sender
                           && IsMember(s.table, sender, to) && IsMember(s.table, q.name.value, to)
                      then [SeenGroup(to, sender, content)] else []
                    case Global(content) =>
                      if !q.loggedIn || q.name == None || q.name.value == sender then []
                      else
                        var both := set n | n in s.table.rooms && sender in s.table.rooms[n].members
                                            && q.name.value in s.table.rooms[n].members;
                        seq(|both|, _ => SeenGlobal(sender, content))
  {
    var s := Served(EMPTY, events).0;
    SoOftenMore(events, i, raw, junk, spare, m, j);
    hide GoodState, Served, MessagesFor, Step, TidyOn, ParseLine, Times, CopiesTo;
    HowOften(s.table, s.sessions[j], s.sessions[i].name.value, m);
  }

  lemma SoOftenMore(events: seq<Event>, i: nat, raw: string, junk: string, spare: bool, m: Message, j: nat)
    requires TidyOn(events, j)
    requires ParseLine(raw) == Accepted(Msg(m))
    requires var s := Served(EMPTY, events).0; i < |s.sessions| && j < |s.sessions| && s.sessions[i].loggedIn
    ensures var s := Served(EMPTY, events).0;
            var after := Step(s, Reads(i, Some(raw), junk, spare)).0;
            && s.sessions[i].name.Some? && |after.sessions| == |s.sessions|
            && var sender := s.sessions[i].name.value;
               MessagesFor(after, j) == MessagesFor(s, j)
                 + Times(Messages.Shows(Delivery(m, sender)), CopiesTo(s.table, s.sessions[j], sender, m))
  {
    var s := Served(EMPTY, events).0;
    RunsFromTheStart(events);
    assert GoodSession(s.table.accounts, s.sessions[i]);
    hide GoodState, Vouched, Served, MessagesFor, AfterPayload, OnlyLettersShow;
    OneMessageMore(s, i, s.sessions[i].name.value, raw, spare, m, j);
  }

  /** `Times` and `CopiesTo`, spelled out. */
  lemma HowOften(t: Table, q: Session, sender: string, m: Message)
    ensures Times(Messages.Shows(Delivery(m, sender)), CopiesTo(t, q, sender, m))
         == match m
            case Direct(to, content) =>
              if q.loggedIn && q.name == Some(to) then [SeenDirect(sender, content)] else []
            case Group(to, content) =>
              if q.loggedIn && q.name.Some? && q.name.value != sender
                   && IsMember(t, sender, to) && IsMember(t, q.name.value, to)
              then [SeenGroup(to, sender, content)] else []
            case Global(content) =>
              if !q.loggedIn || q.name == None || q.name.value == sender then []
              else
                var both := set n | n in t.rooms && sender in t.rooms[n].members
                                    && q.name.value in t.rooms[n].members;
                seq(|both|, _ => SeenGlobal(sender, content))
  {
    if q.name.Some? {
      assert SharedRooms(t, sender, q.name.value)
          == set n | n in t.rooms && sender in t.rooms[n].members && q.name.value in t.rooms[n].members;
    }
  }

  /** A line to a channel, and the line others in there read. */
  lemma TypedToRead(raw: string, sender: string, to: string, content: string)
    requires ValidName(sender) && PlainWord(to) && content != [] && IsAscii(content)
    ensures StripCr(raw) == "@" + to + " " + content ==>
      ParseLine(raw) == Accepted(Msg(Direct(to, content)))
      && Line(Delivery(Direct(to, content), sender)) == "<DM> @" + sender + ": " + content
    ensures StripCr(raw) == "#" + to + " " + content ==>
      ParseLine(raw) == Accepted(Msg(Group(to, content)))
      && Line(Delivery(Group(to, content), sender)) == "#" + to + " @" + sender + ": " + content
    ensures StripCr(raw) == content && content[0] !in "/@#" ==>
      ParseLine(raw) == Accepted(Msg(Global(content)))
      && Line(Delivery(Global(content), sender)) == "<Global> @" + sender + ": " + content
  {
    hide ParseLine;
    assert IsAscii(to + content);
    if StripCr(raw) == "@" + to + " " + content {
      DirectIsRead(raw, to, content);
    }
    if StripCr(raw) == "#" + to + " " + content {
      GroupIsRead(raw, to, content);
    }
    if StripCr(raw) == content && content[0] !in "/@#" {
      GlobalIsRead(raw);
    }
  }

  lemma OneMessageMore(s: State, i: nat, sender: string, raw: string, spare: bool, m: Message, j: nat)
    requires GoodState(s) && i < |s.sessions| && j < |s.sessions| && OnlyLettersShow(s.sessions[j].queue)
    requires s.sessions[i].loggedIn && s.sessions[i].name == Some(sender) && ParseLine(raw) == Accepted(Msg(m))
    ensures var after := AfterPayload(s, i, sender, raw, spare).0;
            |after.sessions| == |s.sessions|
            && MessagesFor(after, j) == MessagesFor(s, j)
                 + Times(Messages.Shows(Delivery(m, sender)), CopiesTo(s.table, s.sessions[j], sender, m))
  {
    hide GoodState, OnlyLettersShow, MessagesFor, LettersShown, MessageReply, CopiesTo;
    var after, q, d := AfterPayload(s, i, sender, raw, spare).0, s.sessions[j].queue, Delivery(m, sender);
    PayloadKeeps(s, i, raw, spare);
    PayloadStaysPlain(s, i, sender, raw, spare, j);
    QueueIsSeen(s, j);
    QueueIsSeen(after, j);
    var told := q + Copies(Letter(d), CopiesTo(s.table, s.sessions[j], sender, m));
    CopiesAreShown(q, d, CopiesTo(s.table, s.sessions[j], sender, m));
    ReplyIsNotShown(told, s.table, sender, m);
    assert told + [] == told;
  }

  lemma QueueIsSeen(s: State, j: nat)
    requires GoodState(s) && j < |s.sessions| && OnlyLettersShow(s.sessions[j].queue)
    ensures MessagesFor(s, j) == LettersShown(s.sessions[j].queue)
  {
    assert GoodSession(s.table.accounts, s.sessions[j]);
    MessagesAreLetters(s.sessions[j].queue);
  }

  lemma ReplyIsNotShown(ps: seq<Outgoing>, t: Table, sender: string, m: Message)
    ensures LettersShown(ps + MessageReply(t, sender, m)) == LettersShown(ps)
  {
    var reply := MessageReply(t, sender, m);
    if reply == [] {
      assert ps + reply == ps;
    } else {
      assert reply == [reply[0]];
      ShownOneMore(ps, reply[0]);
    }
  }

  /** Payloads are pushed one by one, with any number of rounds of the transmit loop after each
      push (none where `rounds` is too short), into a stream that takes them all. */
  method PushPayloads(wire: Transmission.Transmitter, ps: seq<Outgoing>, rounds: seq<nat>)
    requires wire.Valid() && wire.HasRoom()
    requires wire.stream.room >= wire.Need() + |AllBytes(ps)|
    modifies wire, wire.queue, wire.queue.arr, wire.stream
    ensures wire.Valid() && wire.HasRoom() && wire.pushed == old(wire.pushed) + ps
    ensures wire.stream.room - wire.Need() == old(wire.stream.room - wire.Need()) - |AllBytes(ps)|
    ensures wire.queue == old(wire.queue) && wire.stream == old(wire.stream)
    ensures wire.queue.arr == old(wire.queue.arr) || fresh(wire.queue.arr)
  {
    if ps == [] {
      assert old(wire.pushed) + ps == old(wire.pushed);
    } else {
      var n := |ps| - 1;
      AllBytesOneMore(ps[..n], ps[n]);
      assert ps == ps[..n] + [ps[n]];
      PushPayloads(wire, ps[..n], rounds);
      Associative(old(wire.pushed), ps[..n], [ps[n]]);
      wire.PushAndRun(ps[n], if n < |rounds| then rounds[n] else 0);
    }
  }

  /** The whole way, from nothing: whatever is pushed, with any rounds of the transmit loop in
      between, is written in full and in order, and a client that receives the bytes in chunks of
      any sizes reads the lines of that text. */
  method SendAndRead(ps: seq<Outgoing>, rounds: seq<nat>, sizes: seq<ChunkSize>)
    returns (wire: Transmission.Transmitter, lines: seq<string>)
    ensures wire.Valid() && wire.written == wire.pushed == ps && wire.stream.output == AllBytes(ps)
    ensures lines == Lines(AllBytes(ps), '\n')
    ensures Orderly(ps) && OnlyLettersShow(ps) ==> MessagesIn(lines) == LettersShown(ps)
  {
    var stream := new TcpStream([], |AllBytes(ps)|);
    wire := new Transmission.Transmitter(stream);
    assert wire.Need() == 0 && [] + ps == ps;
    PushPayloads(wire, ps, rounds);
    lines := Transmission.DrainAndRead(wire, sizes);
    if Orderly(ps) && OnlyLettersShow(ps) {
      MessagesAreLetters(ps);
    }
  }

  /** The queue of any connection of a server that has served any events since it was empty,
      through its transmitter to its client. */
  method ServeAndRead(events: seq<Event>, i: nat, rounds: seq<nat>, sizes: seq<ChunkSize>)
    returns (fate: Fate, lines: seq<string>)
    ensures fate == Served(EMPTY, events).1
    ensures fate != WrongChannel && i < |Served(EMPTY, events).0.sessions| ==>
      var queue := Served(EMPTY, events).0.sessions[i].queue;
      && lines == Lines(AllBytes(queue), '\n')
      && (TidyOn(events, i) ==> MessagesIn(lines) == LettersShown(queue))
  {
    var pool := new ConnectionPool();
    EmptyShows(pool);
    var conns;
    conns, fate := Serve(pool, [], events, EMPTY);
    lines := [];
    if fate != WrongChannel && i < |conns| {
      var _, read := SendAndRead(conns[i].outbox, rounds, sizes);
      lines := read;
      QueuesAreReadable(events, i);
    }
  }

  lemma EmptyShows(pool: ConnectionPool)
    requires pool.users == [] && pool.channels == [] && pool.Linked()
    ensures GoodServer(pool, []) && Sessions.Shows(pool, [], EMPTY)
  {
  }
}
