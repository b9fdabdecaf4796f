/** What is queued for a client, the text it makes, and what the client reads off that text. */
module Outboxes {
  import opened Collections
  import opened Framing
  import opened Messages
  import opened Replies

  /** `OutgoingPayload`. */
  datatype Outgoing = StringLiteral(literal: Literal) | Buff(text: string) | Letter(d: Delivery)

  /** What `send` queues: nothing once the connection is terminating gracefully. */
  function Sent(leaving: bool, text: string): seq<Outgoing> {
    if leaving then [] else [Buff(text)]
  }

  function Copies(p: Outgoing, n: nat): seq<Outgoing> {
    seq(n, _ => p)
  }

  function Bytes(p: Outgoing): string {
    match p
    case Letter(d) => Render(d)
    case StringLiteral(literal) => TextOf(literal)
    case Buff(text) => text
  }

  function Texts(ps: seq<Outgoing>): seq<string> {
    seq(|ps|, i requires 0 <= i < |ps| => Bytes(ps[i]))
  }

  function AllBytes(ps: seq<Outgoing>): string {
    Flatten(Texts(ps))
  }

  lemma AllBytesOfTwo(ps: seq<Outgoing>, qs: seq<Outgoing>)
    ensures AllBytes(ps + qs) == AllBytes(ps) + AllBytes(qs)
  {
    var texts := Texts(ps + qs);
    assert texts[..|ps|] == Texts(ps) && texts[|ps|..] == Texts(qs);
    FlattenSplit(texts, |ps|);
  }

  lemma AllBytesOfOne(p: Outgoing)
    ensures AllBytes([p]) == Bytes(p)
  {
    var texts := [Bytes(p)];
    assert Texts([p]) == texts && texts[1..] == [];
    assert Flatten(texts) == Bytes(p) + Flatten([]);
  }

  lemma AllBytesOneMore(ps: seq<Outgoing>, p: Outgoing)
    ensures AllBytes(ps + [p]) == AllBytes(ps) + Bytes(p)
  {
    AllBytesOfTwo(ps, [p]);
    AllBytesOfOne(p);
  }

  lemma AllBytesOfFirst(ps: seq<Outgoing>)
    requires ps != []
    ensures |AllBytes(ps)| == |Bytes(ps[0])| + |AllBytes(ps[1..])|
  {
    assert ps == [ps[0]] + ps[1..];
    AllBytesOfTwo([ps[0]], ps[1..]);
    AllBytesOfOne(ps[0]);
  }

  // --------------------------------------------------- letters on their own

  function Letters(ds: seq<Delivery>): seq<Outgoing> {
    seq(|ds|, i requires 0 <= i < |ds| => Letter(ds[i]))
  }

  function LinesOf(ds: seq<Delivery>): seq<string> {
    seq(|ds|, i requires 0 <= i < |ds| => Line(ds[i]))
  }

  lemma {:induction false} LettersAreTerminatedLines(ds: seq<Delivery>)
    ensures AllBytes(Letters(ds)) == JoinLines(LinesOf(ds), '\n')
  {
    if ds == [] {
      assert Texts(Letters(ds)) == [];
    } else {
      LettersAreTerminatedLines(ds[1..]);
      LettersStep(ds);
      AllBytesOfTwo([Letter(ds[0])], Letters(ds[1..]));
      AllBytesOfOne(Letter(ds[0]));
      JoinStep(Line(ds[0]), '\n', LinesOf(ds[1..]));
    }
  }

  lemma LettersStep(ds: seq<Delivery>)
    requires ds != []
    ensures Letters(ds) == [Letter(ds[0])] + Letters(ds[1..])
    ensures LinesOf(ds) == [Line(ds[0])] + LinesOf(ds[1..])
  {
  }

  lemma WireFormatIsReadable(ds: seq<Delivery>)
    requires AllDeliverable(ds)
    ensures Lines(AllBytes(Letters(ds)), '\n') == LinesOf(ds)
    ensures forall i | 0 <= i < |ds| :: Decode(LinesOf(ds)[i]) == Shows(ds[i])
  {
    forall i | 0 <= i < |ds|
      ensures '\n' !in LinesOf(ds)[i] && Decode(LinesOf(ds)[i]) == Shows(ds[i])
    {
      assert ds[i] in ds;
      LinesAreSingle(ds[i]);
      DecodeUndoesRender(ds[i]);
    }
    LettersAreTerminatedLines(ds);
    LinesOfJoined(LinesOf(ds), '\n', []);
    assert JoinLines(LinesOf(ds), '\n') + [] == JoinLines(LinesOf(ds), '\n');
  }

  // ------------------------------------------- letters among other payloads

  lemma OneLine(line: string)
    requires '\n' !in line
    ensures Lines(line + ['\n'], '\n') == [line] && Rest(line + ['\n'], '\n') == []
  {
    LinesStep(line, '\n', []);
    NoLines([], '\n');
    assert line + ['\n'] + [] == line + ['\n'];
  }

  /** A letter behind any other payloads: whatever they leave of an unfinished line stands before
      it, and behind it a new line starts. */
  lemma LetterEndsALine(s: string, d: Delivery)
    requires IsDeliverable(d)
    ensures Lines(s + Render(d), '\n') == Lines(s, '\n') + [Rest(s, '\n') + Line(d)]
    ensures Rest(s + Render(d), '\n') == []
  {
    LinesAreSingle(d);
    LinesHoldNoDelimiter(s, '\n');
    LinesOfTwo(s, Render(d), '\n');
    var line := Rest(s, '\n') + Line(d);
    assert Rest(s, '\n') + Render(d) == line + ['\n'];
    OneLine(line);
  }

  lemma {:induction false} NothingOpen(s: string)
    requires AtLineStart(s)
    ensures Rest(s, '\n') == []
    decreases |s|
  {
    var i := Find(s, '\n');
    if i < |s| {
      NothingOpen(s[i + 1..]);
    } else {
      assert s[..i] == s;
    }
  }

  /** Every letter can be read and starts a line. */
  predicate Orderly(ps: seq<Outgoing>) {
    forall i | 0 <= i < |ps| && ps[i].Letter? :: IsDeliverable(ps[i].d) && AtLineStart(AllBytes(ps[..i]))
  }

  lemma OrderlyOneMore(ps: seq<Outgoing>, p: Outgoing)
    requires Orderly(ps) && (p.Letter? ==> IsDeliverable(p.d) && AtLineStart(AllBytes(ps)))
    ensures Orderly(ps + [p])
  {
    forall i | 0 <= i < |ps + [p]| && (ps + [p])[i].Letter?
      ensures IsDeliverable((ps + [p])[i].d) && AtLineStart(AllBytes((ps + [p])[..i]))
    {
      assert (ps + [p])[..i] == if i < |ps| then ps[..i] else ps;
    }
  }

  /** The letter at i is a line of its own, and shows what it says. */
  lemma LetterIsShown(ps: seq<Outgoing>, i: nat)
    requires Orderly(ps) && i < |ps| && ps[i].Letter?
    ensures var before, lines := Lines(AllBytes(ps[..i]), '\n'), Lines(AllBytes(ps), '\n');
            |before| < |lines| && lines[..|before|] == before && Decode(lines[|before|]) == Shows(ps[i].d)
  {
    AllBytesAround(ps, i);
    DecodeUndoesRender(ps[i].d);
    LetterAmong(AllBytes(ps[..i]), ps[i].d, AllBytes(ps[i + 1..]));
  }

  lemma AllBytesAround(ps: seq<Outgoing>, i: nat)
    requires i < |ps|
    ensures AllBytes(ps) == AllBytes(ps[..i]) + Bytes(ps[i]) + AllBytes(ps[i + 1..])
  {
    AllBytesOneMore(ps[..i], ps[i]);
    assert ps == ps[..i] + [ps[i]] + ps[i + 1..];
    AllBytesOfTwo(ps[..i] + [ps[i]], ps[i + 1..]);
  }

  lemma LetterAmong(s: string, d: Delivery, t: string)
    requires IsDeliverable(d) && AtLineStart(s)
    ensures var before, lines := Lines(s, '\n'), Lines(s + Render(d) + t, '\n');
            |before| < |lines| && lines[..|before|] == before && lines[|before|] == Line(d)
  {
    NothingOpen(s);
    LetterEndsALine(s, d);
    assert [] + Line(d) == Line(d);
    LinesOfTwo(s + Render(d), t, '\n');
  }

  lemma PlainIsNotice(line: string)
    requires line == [] || (line[0] != '<' && line[0] != '#')
    ensures Decode(line) == Notice
  {
    if line != [] {
      assert "<DM> @"[0] == '<' && "<Global> @"[0] == '<' && "#"[0] == '#';
    }
  }

  lemma PlainTail(s: string, i: nat)
    requires IsPlain(s) && i < |s| && s[i] == '\n'
    ensures IsPlain(s[i + 1..])
  {
    var tail := s[i + 1..];
    forall k | 0 <= k < |tail| && StartsLine(tail, k)
      ensures tail[k] != '<' && tail[k] != '#'
    {
      assert StartsLine(s, i + 1 + k);
    }
  }

  lemma {:induction false} PlainLines(s: string)
    requires IsPlain(s)
    ensures forall line | line in Lines(s, '\n') :: Decode(line) == Notice
    ensures IsPlain(Rest(s, '\n'))
    decreases |s|
  {
    var i := Find(s, '\n');
    if i < |s| {
      PlainTail(s, i);
      PlainLines(s[i + 1..]);
      assert i > 0 ==> StartsLine(s, 0);
      PlainIsNotice(s[..i]);
    }
  }

  /** The messages among the lines a client reads. */
  function MessagesIn(lines: seq<string>): seq<Seen> {
    if lines == [] then []
    else MessagesIn(lines[..|lines| - 1]) + MessageOf(lines[|lines| - 1])
  }

  function MessageOf(line: string): seq<Seen> {
    if Decode(line) == Notice then [] else [Decode(line)]
  }

  lemma MessagesInOneMore(lines: seq<string>, line: string)
    ensures MessagesIn(lines + [line]) == MessagesIn(lines) + MessageOf(line)
  {
    assert (lines + [line])[..|lines|] == lines;
  }

  lemma LastOfTwo(a: seq<string>, b: seq<string>)
    requires b != []
    ensures a + b == a + b[..|b| - 1] + [b[|b| - 1]]
  {
  }

  lemma {:induction false} MessagesInTwo(a: seq<string>, b: seq<string>)
    ensures MessagesIn(a + b) == MessagesIn(a) + MessagesIn(b)
  {
    if b == [] {
      assert a + b == a;
    } else {
      var before, last := b[..|b| - 1], b[|b| - 1];
      MessagesInTwo(a, before);
      LastOfTwo(a, b);
      MessagesInOneMore(a + before, last);
      Associative(MessagesIn(a), MessagesIn(before), MessageOf(last));
      calc {
        MessagesIn(a + b);
        MessagesIn(a + before) + MessageOf(last);
        MessagesIn(a) + MessagesIn(before) + MessageOf(last);
        MessagesIn(a) + (MessagesIn(before) + MessageOf(last));
        MessagesIn(a) + MessagesIn(b);
      }
    }
  }

  lemma {:induction false} NoMessages(lines: seq<string>)
    requires forall line | line in lines :: Decode(line) == Notice
    ensures MessagesIn(lines) == []
  {
    if lines != [] {
      NoMessages(lines[..|lines| - 1]);
    }
  }

  /** The letters of a queue, as their reader sees them. */
  function LettersShown(ps: seq<Outgoing>): seq<Seen> {
    if ps == [] then []
    else
      var last := ps[|ps| - 1];
      LettersShown(ps[..|ps| - 1]) + if last.Letter? then [Shows(last.d)] else []
  }

  lemma ShownOneMore(ps: seq<Outgoing>, p: Outgoing)
    ensures LettersShown(ps + [p]) == LettersShown(ps) + if p.Letter? then [Shows(p.d)] else []
  {
    assert (ps + [p])[..|ps|] == ps;
  }

  function Times(seen: Seen, n: nat): seq<Seen> {
    seq(n, _ => seen)
  }

  lemma {:induction false} CopiesAreShown(ps: seq<Outgoing>, d: Delivery, n: nat)
    ensures LettersShown(ps + Copies(Letter(d), n)) == LettersShown(ps) + Times(Shows(d), n)
  {
    hide LettersShown, Shows;
    if n == 0 {
      assert ps + Copies(Letter(d), n) == ps;
    } else {
      CopiesAreShown(ps, d, n - 1);
      assert ps + Copies(Letter(d), n) == ps + Copies(Letter(d), n - 1) + [Letter(d)];
      ShownOneMore(ps + Copies(Letter(d), n - 1), Letter(d));
      assert Times(Shows(d), n) == Times(Shows(d), n - 1) + [Shows(d)];
      Associative(LettersShown(ps), Times(Shows(d), n - 1), [Shows(d)]);
    }
  }

  /** No other payload looks like a message. */
  predicate OnlyLettersShow(ps: seq<Outgoing>) {
    forall p | p in ps :: p.Letter? || IsPlain(Bytes(p))
  }

  /** The client of an orderly queue sees its letters, all of them, in order, and no other
      message. */
  lemma {:induction false} MessagesAreLetters(ps: seq<Outgoing>)
    requires Orderly(ps) && OnlyLettersShow(ps)
    ensures MessagesIn(Lines(AllBytes(ps), '\n')) == LettersShown(ps)
    ensures IsPlain(Rest(AllBytes(ps), '\n'))
  {
    if ps == [] {
      NoLines([], '\n');
    } else {
      var before, p := ps[..|ps| - 1], ps[|ps| - 1];
      assert ps == before + [p];
      OrderlyBefore(ps);
      MessagesAreLetters(before);
      AllBytesOneMore(before, p);
      OnePayloadMore(AllBytes(before), p);
    }
  }

  lemma OrderlyBefore(ps: seq<Outgoing>)
    requires Orderly(ps) && ps != []
    ensures Orderly(ps[..|ps| - 1])
    ensures ps[|ps| - 1].Letter? ==> IsDeliverable(ps[|ps| - 1].d) && AtLineStart(AllBytes(ps[..|ps| - 1]))
  {
    var before := ps[..|ps| - 1];
    forall i | 0 <= i < |before| && before[i].Letter?
      ensures IsDeliverable(before[i].d) && AtLineStart(AllBytes(before[..i]))
    {
      assert before[i] == ps[i] && before[..i] == ps[..i];
    }
  }

  lemma OnePayloadMore(s: string, p: Outgoing)
    requires IsPlain(Rest(s, '\n'))
    requires if p.Letter? then IsDeliverable(p.d) && AtLineStart(s) else IsPlain(Bytes(p))
    ensures MessagesIn(Lines(s + Bytes(p), '\n'))
         == MessagesIn(Lines(s, '\n')) + if p.Letter? then [Shows(p.d)] else []
    ensures IsPlain(Rest(s + Bytes(p), '\n'))
  {
    var open := Rest(s, '\n');
    if p.Letter? {
      NothingOpen(s);
      LetterEndsALine(s, p.d);
      assert [] + Line(p.d) == Line(p.d);
      MessagesInTwo(Lines(s, '\n'), [Line(p.d)]);
      OneMessage(p.d);
    } else {
      var text := Bytes(p);
      LinesOfTwo(s, text, '\n');
      PlainOfTwo(open, text);
      PlainLines(open + text);
      MessagesInTwo(Lines(s, '\n'), Lines(open + text, '\n'));
      NoMessages(Lines(open + text, '\n'));
    }
  }

  lemma OneMessage(d: Delivery)
    requires IsDeliverable(d)
    ensures MessagesIn([Line(d)]) == [Shows(d)]
  {
    DecodeUndoesRender(d);
    assert [Line(d)][..0] == [];
  }
}
