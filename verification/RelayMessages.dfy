/** Whom each message reaches, spelled out on the queues: PROTOCOL.md and
    chatd/net/connection/handle_payload.cpp. */
module RelayMessages {
  import opened Collections
  import opened Payloads
  import opened Messages
  import opened Replies
  import opened Outboxes
  import opened Rooms
  import opened Relay

  /** The line of connection i, logged in as that user, is that message. */
  predicate Says(s: State, i: nat, user: string, raw: string, m: Message) {
    && i < |s.sessions| && s.sessions[i].loggedIn && s.sessions[i].name == Some(user)
    && ParseLine(raw) == Accepted(Msg(m))
  }

  lemma MessageIsRun(s: State, i: nat, user: string, raw: string, junk: string, spare: bool, m: Message)
    requires Says(s, i, user, raw, m)
    ensures var (after, fate) := Step(s, Reads(i, Some(raw), junk, spare));
            && fate == Fine && after.table == s.table && |after.sessions| == |s.sessions|
            && forall j | 0 <= j < |s.sessions| ::
                 after.sessions[j] == AfterMessage(s.table, s.sessions, i, user, m, j)
  {
    hide ParseLine, AfterMessage;
  }

  lemma NoneAndOne(p: Outgoing)
    ensures Copies(p, 0) == [] && Copies(p, 1) == [p]
    ensures forall ps: seq<Outgoing> :: ps + [] == ps
  {
  }

  /** A direct message: one letter for every connection of the user it names, and nothing else for
      anybody, not even if there is no such user. */
  lemma DirectReaches(s: State, i: nat, user: string, raw: string, junk: string, spare: bool,
                      to: string, content: string)
    requires Says(s, i, user, raw, Direct(to, content))
    ensures var (after, fate) := Step(s, Reads(i, Some(raw), junk, spare));
            && fate == Fine && after.table == s.table && |after.sessions| == |s.sessions|
            && forall j | 0 <= j < |s.sessions| ::
                 after.sessions[j]
                 == if s.sessions[j].loggedIn && s.sessions[j].name == Some(to) then
                      s.sessions[j].(queue := s.sessions[j].queue + [Letter(Delivery(Direct(to, content), user))])
                    else s.sessions[j]
  {
    MessageIsRun(s, i, user, raw, junk, spare, Direct(to, content));
    NoneAndOne(Letter(Delivery(Direct(to, content), user)));
    hide Step, ParseLine, Copies;
  }

  /** A message to a channel: if its sender is in there, one letter for every connection of every
      other user in there; if not, the sender is told so. Nothing else for anybody. */
  lemma GroupReaches(s: State, i: nat, user: string, raw: string, junk: string, spare: bool,
                     to: string, content: string)
    requires Says(s, i, user, raw, Group(to, content))
    ensures var (after, fate) := Step(s, Reads(i, Some(raw), junk, spare));
            && fate == Fine && after.table == s.table && |after.sessions| == |s.sessions|
            && forall j | 0 <= j < |s.sessions| ::
                 var q := s.sessions[j];
                 after.sessions[j]
                 == if IsMember(s.table, user, to) then
                      if q.loggedIn && q.name.Some? && q.name.value != user && IsMember(s.table, q.name.value, to) then
                        q.(queue := q.queue + [Letter(Delivery(Group(to, content), user))])
                      else q
                    else if j == i then q.(queue := q.queue + [StringLiteral(ChannelNotFound)])
                    else q
  {
    MessageIsRun(s, i, user, raw, junk, spare, Group(to, content));
    NoneAndOne(Letter(Delivery(Group(to, content), user)));
    hide Step, ParseLine, Copies, IsMember;
  }

  /** Any other message: for every connection of every other user as many letters as the two have
      channels in common; and the sender is told if there is no channel to send it to. */
  lemma GlobalReaches(s: State, i: nat, user: string, raw: string, junk: string, spare: bool, content: string)
    requires Says(s, i, user, raw, Global(content))
    ensures var letter := Letter(Delivery(Global(content), user));
            var (after, fate) := Step(s, Reads(i, Some(raw), junk, spare));
            && fate == Fine && after.table == s.table && |after.sessions| == |s.sessions|
            && forall j | 0 <= j < |s.sessions| ::
                 var q := s.sessions[j];
                 after.sessions[j]
                 == if q.loggedIn && q.name.Some? && q.name.value != user then
                      var both := set n | n in s.table.rooms && user in s.table.rooms[n].members
                                                 && q.name.value in s.table.rooms[n].members;
                      q.(queue := q.queue + seq(|both|, _ => letter))
                    else if j == i && forall n | n in s.table.rooms :: user !in s.table.rooms[n].members then
                      q.(queue := q.queue + [StringLiteral(NotSubscribed)])
                    else q
  {
    MessageIsRun(s, i, user, raw, junk, spare, Global(content));
    NoneAndOne(Letter(Delivery(Global(content), user)));
    hide Step, ParseLine;
    forall j | 0 <= j < |s.sessions| && s.sessions[j].name.Some?
      ensures SharedRooms(s.table, user, s.sessions[j].name.value)
           == set n | n in s.table.rooms && user in s.table.rooms[n].members
                      && s.sessions[j].name.value in s.table.rooms[n].members
    {
    }
  }
}
