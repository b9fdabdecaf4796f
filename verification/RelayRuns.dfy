/** Whole runs of a server that starts with no accounts, channels or connections. */
module RelayRuns {
  import opened Collections
  import opened Payloads
  import opened Outboxes
  import opened Rooms
  import opened Relay
  import opened RelayLaws
  import opened RelayTexts

  /** All of it holds of a server that starts with nothing, whatever its clients do; nothing but
      letters looks like a message to the clients whose own lines are tidy. */
  lemma RunsFromTheStart(events: seq<Event>)
    ensures var s := Served(EMPTY, events).0;
            && GoodState(s) && Vouched(s, events)
            && forall j | 0 <= j < |s.sessions| && TidyOn(events, j) :: OnlyLettersShow(s.sessions[j].queue)
  {
    hide GoodState, Served, OnlyLettersShow, TidyOn;
    var s := Served(EMPTY, events).0;
    EmptyIsGood();
    RunKeepsGood(EMPTY, events);
    RunIsVouched(EMPTY, [], events);
    assert [] + events == events;
    forall j | 0 <= j < |s.sessions| && TidyOn(events, j)
      ensures OnlyLettersShow(s.sessions[j].queue)
    {
      RunStaysPlain(EMPTY, events, j);
    }
  }

  /** One more event: nothing happens once the run has not ended well. */
  lemma {:induction false} ServedOneMore(s: State, events: seq<Event>, e: Event)
    ensures Served(s, events + [e])
         == if Served(s, events).1 == Fine then Step(Served(s, events).0, e) else Served(s, events)
    decreases |events|
  {
    hide Step;
    if events == [] {
      assert events + [e] == [e];
    } else {
      ServedOneMore(Step(s, events[0]).0, events[1..], e);
      assert (events + [e])[1..] == events[1..] + [e];
    }
  }

  // --------------------------------------------------- what has been freed

  /** Connection i, not logged in, reads a NULL line after its name was accepted, or answers yes
      when there is an account of that name. */
  predicate Frees(s: State, e: Event, i: nat) {
    && i < |s.sessions| && !s.sessions[i].loggedIn && e.Reads? && e.conn == i
    && var me := s.sessions[i];
    match e.line
    case None => me.name.Some?
    case Some(raw) =>
      var line := StripCr(raw);
      && raw != [] && HasBoth(me, line) && IsAnswer(me.asked, line, 'y')
      && NameAfter(me.name, line).value in s.table.accounts
  }

  /** The k-th event does that to connection i. */
  predicate FreesAt(events: seq<Event>, k: nat, i: nat) {
    && k < |events| && Served(EMPTY, events[..k]).1 == Fine
    && Frees(Served(EMPTY, events[..k]).0, events[k], i)
  }

  lemma EntryFrees(s: State, i: nat, raw: string, junk: string)
    requires GoodState(s) && i < |s.sessions| && !s.sessions[i].loggedIn
    ensures var after := AfterEntry(s, i, raw, junk).0;
            |after.sessions| == |s.sessions|
            && (after.sessions[i].freed <==> s.sessions[i].freed || Frees(s, Reads(i, Some(raw), junk, true), i))
  {
    hide GoodState, EntryReply, CText;
    EntryFreed(s.sessions[i], StripCr(raw), junk);
  }

  lemma {:induction false} PayloadFreesNothing(s: State, i: nat, user: string, raw: string, spare: bool, j: nat)
    requires i < |s.sessions|
    ensures var after := AfterPayload(s, i, user, raw, spare).0;
            |after.sessions| == |s.sessions|
            && (j < |s.sessions| ==> after.sessions[j].freed == s.sessions[j].freed)
  {
    hide Obey, ReplyTo, ListReply;
  }

  lemma StepFrees(s: State, e: Event, i: nat)
    requires GoodState(s)
    ensures var after := Step(s, e).0;
            (i < |after.sessions| && after.sessions[i].freed)
            <==> i < |s.sessions| && (s.sessions[i].freed || Frees(s, e, i))
  {
    match e
    case Connect =>
    case Reads(j, line, junk, spare) =>
      if j < |s.sessions| && line.Some? {
        assert GoodSession(s.table.accounts, s.sessions[j]);
        hide GoodState, GoodSession, AfterPayload, AfterEntry;
        if !s.sessions[j].loggedIn {
          EntryFrees(s, j, line.value, junk);
          EntryLeavesOthers(s, j, line.value, junk, i);
        } else {
          PayloadFreesNothing(s, j, s.sessions[j].name.value, line.value, spare, i);
        }
      }
  }

  lemma EntryLeavesOthers(s: State, i: nat, raw: string, junk: string, j: nat)
    requires i < |s.sessions|
    ensures j != i && j < |s.sessions| ==> AfterEntry(s, i, raw, junk).0.sessions[j] == s.sessions[j]
  {
    hide AfterLogin;
  }

  lemma FreesOneMore(events: seq<Event>, e: Event, i: nat)
    ensures (exists k: nat :: FreesAt(events + [e], k, i))
       <==> (exists k: nat :: FreesAt(events, k, i))
            || (Served(EMPTY, events).1 == Fine && Frees(Served(EMPTY, events).0, e, i))
  {
    hide Served, Frees;
    var more, n := events + [e], |events|;
    assert more[..n] == events;
    forall k: nat | k < n
      ensures FreesAt(more, k, i) <==> FreesAt(events, k, i)
    {
      assert more[..k] == events[..k];
    }
    assert FreesAt(more, n, i) <==> Served(EMPTY, events).1 == Fine && Frees(Served(EMPTY, events).0, e, i);
  }

  /** What a connection has entered has been freed if and only if one of its lines did so. */
  lemma {:induction false} FreedExactly(events: seq<Event>, i: nat)
    ensures var s := Served(EMPTY, events).0;
            i < |s.sessions| && s.sessions[i].freed <==> exists k: nat :: FreesAt(events, k, i)
    decreases |events|
  {
    if events != [] {
      hide Step, Frees, FreesAt, GoodState, Served;
      var n := |events| - 1;
      var before, e := events[..n], events[n];
      assert events == before + [e];
      FreedExactly(before, i);
      ServedOneMore(EMPTY, before, e);
      RunsFromTheStart(before);
      FreesOneMore(before, e, i);
      StepFrees(Served(EMPTY, before).0, e, i);
    }
  }

  /** A run that has gone well so far ends in an access to freed memory exactly when the next line
      is one of a connection that is not logged in, freed what it entered, and either reads NULL
      again, or completes name and password and then answers yes, or has to be compared with
      accounts. */
  lemma FreedMemoryIsUsed(events: seq<Event>, e: Event)
    requires Served(EMPTY, events).1 == Fine
    ensures var s := Served(EMPTY, events).0;
            Served(EMPTY, events + [e]).1 == UsesFreedMemory
            <==> e.Reads? && e.conn < |s.sessions| && !s.sessions[e.conn].loggedIn
                 && (exists k: nat :: FreesAt(events, k, e.conn))
                 && (e.line == None
                     || (e.line.value != [] && ComesToNames(s, s.sessions[e.conn], StripCr(e.line.value))))
  {
    var s := Served(EMPTY, events).0;
    ServedOneMore(EMPTY, events, e);
    RunsFromTheStart(events);
    if e.Reads? && e.conn < |s.sessions| {
      FreedExactly(events, e.conn);
      assert GoodSession(s.table.accounts, s.sessions[e.conn]);
      hide GoodState, Served, FreesAt, AfterLogin, AfterCommand;
    }
  }

  /** With a name entered, the line comes to where the code looks at it again. */
  predicate ComesToNames(s: State, me: Session, line: string) {
    && (me.password.Some? || (8 <= |line| <= 64 && NUL !in line))
    && if me.asked && line != [] && line[0] == 'y' then true
       else if me.asked && line != [] && line[0] == 'n' then false
       else s.table.accounts != map[]
  }

  // ------------------------------------------------ who is there to write to

  /** Somebody is logged in under the name of every account. */
  ghost predicate EveryoneIsIn(s: State) {
    forall n | n in s.table.accounts :: IsIn(s, n)
  }

  ghost predicate IsIn(s: State, name: string) {
    exists j | 0 <= j < |s.sessions| :: s.sessions[j].loggedIn && s.sessions[j].name == Some(name)
  }

  lemma StaysIn(s: State, s': State, name: string)
    requires IsIn(s, name) && Grows(s, s')
    ensures IsIn(s', name)
  {
    var j :| 0 <= j < |s.sessions| && s.sessions[j].loggedIn && s.sessions[j].name == Some(name);
    assert Continues(s.sessions[j], s'.sessions[j]);
  }

  /** A line makes an account only for the connection that it logs in. */
  lemma NewAccountIsIn(s: State, e: Event, name: string)
    requires GoodState(s) && name in Step(s, e).0.table.accounts && name !in s.table.accounts
    ensures IsIn(Step(s, e).0, name)
  {
    var me, raw, after := s.sessions[e.conn], e.line.value, Step(s, e).0;
    assert GoodSession(s.table.accounts, me);
    hide GoodSession, Orderly;
    if me.loggedIn {
      SameNames(s, e.conn, me.name.value, raw, e.spare);
    } else {
      hide Entered;
      assert after.sessions[e.conn].loggedIn && after.sessions[e.conn].name == Some(name);
    }
  }

  lemma SameNames(s: State, i: nat, user: string, raw: string, spare: bool)
    requires GoodState(s) && i < |s.sessions| && user in s.table.accounts
    ensures AfterPayload(s, i, user, raw, spare).0.table.accounts.Keys == s.table.accounts.Keys
  {
    hide GoodState, Obey, ReplyTo, ListReply;
    match ParseLine(raw)
    case Accepted(Command(kind, args)) =>
      if OrderOf(kind, args).Some? {
        SameAccounts(s.table, user, OrderOf(kind, args).value);
      }
    case _ =>
  }

  /** While no connection is removed, every account has one that is logged in to it. */
  lemma {:induction false} EveryoneIsConnected(s: State, events: seq<Event>)
    requires GoodState(s) && EveryoneIsIn(s)
    ensures EveryoneIsIn(Served(s, events).0)
    decreases |events|
  {
    if events != [] {
      var next := Step(s, events[0]).0;
      hide GoodState, Step, Grows, IsIn;
      StepKeeps(s, events[0]);
      StepGrows(s, events[0]);
      forall n | n in next.table.accounts
        ensures IsIn(next, n)
      {
        if n in s.table.accounts {
          StaysIn(s, next, n);
        } else {
          NewAccountIsIn(s, events[0], n);
        }
      }
      if Step(s, events[0]).1 == Fine {
        EveryoneIsConnected(next, events[1..]);
      }
    }
  }
}
