/** The server-to-client wire format: chatd/protocol/message.cpp, and a reader for it. */
module Messages {
  import opened Collections
  import opened Framing
  import opened Payloads
  import opened PayloadLaws

  /** A parsed message with its sender filled in. */
  datatype Delivery = Delivery(msg: Message, sender: string)

  predicate IsNameChar(c: char) {
    'a' <= c <= 'z' || 'A' <= c <= 'Z' || '0' <= c <= '9' || c == '_'
  }

  /** The user names the login accepts. */
  predicate ValidName(name: string) {
    2 <= |name| <= 20 && forall c | c in name :: IsNameChar(c)
  }

  function Heading(d: Delivery): string {
    match d.msg
    case Direct(_, _) => "<DM> @"
    case Group(to, _) => "#" + to + " @"
    case Global(_) => "<Global> @"
  }

  /** The line a client receives, without its newline. */
  function Line(d: Delivery): string {
    Heading(d) + d.sender + ": " + d.msg.content
  }

  function Render(d: Delivery): string {
    Line(d) + "\n"
  }

  /** One UNWRAP(tcp_stream_write(...)): `done` of `whole` is sent, `part` comes next. On
      failure the stream has taken all of `whole` that it had space for. */
  method WritePart(s: TcpStream, part: string, ghost whole: string, ghost done: string,
                   ghost start: seq<char>, ghost room: nat)
    returns (ok: bool)
    requires s.output == start + done && s.Space() + |done| == room && done + part <= whole
    requires s.isOpen || |done| < |whole|
    modifies s`output, s`room
    ensures ok ==> s.isOpen && s.output == start + (done + part) && s.Space() + |done + part| == room
    ensures !ok ==> room < |whole| && s.output == start + whole[..room] && s.Space() == 0
  {
    ghost var left := s.Space();
    var r := s.Write(part);
    if r != StreamOk {
      assert whole[..room] == done + part[..left];
      Associative(start, done, part[..left]);
      return false;
    }
    assert part[..|part|] == part;
    Associative(start, done, part);
    return true;
  }

  /** The writes before the sender's name. */
  method SendHeading(d: Delivery, s: TcpStream) returns (ok: bool)
    modifies s`output, s`room
    ensures ok ==> s.isOpen && s.output == old(s.output) + Heading(d) && s.Space() + |Heading(d)| == old(s.Space())
    ensures !ok ==> old(s.Space()) < |Heading(d)|
    ensures !ok ==> s.output == old(s.output) + Heading(d)[..old(s.Space())] && s.Space() == 0
  {
    ghost var start, room, whole := s.output, s.Space(), Heading(d);
    assert start + [] == start;
    match d.msg {
      case Direct(_, content) =>
        ok := WritePart(s, "<DM> @", whole, [], start, room);
      case Group(to, content) =>
        ok := WritePart(s, "#", whole, [], start, room);
        if !ok { return; }
        ok := WritePart(s, to, whole, "#", start, room);
        if !ok { return; }
        ok := WritePart(s, " @", whole, "#" + to, start, room);
      case Global(content) =>
        ok := WritePart(s, "<Global> @", whole, [], start, room);
    }
  }

  /** The three `send` methods. */
  method Send(d: Delivery, s: TcpStream) returns (ok: bool)
    modifies s`output, s`room
    ensures ok == (s.isOpen && |Render(d)| <= old(s.room))
    ensures s.output == old(s.output) + Render(d)[..Min(|Render(d)|, old(s.Space()))]
    ensures s.Space() == old(s.Space()) - Min(|Render(d)|, old(s.Space()))
  {
    ghost var start, room, whole := s.output, s.Space(), Render(d);
    ok := SendHeading(d, s);
    if !ok {
      assert whole[..room] == Heading(d)[..room];
      return;
    }
    ok := SendFromSender(d, s, start, room);
    if ok {
      assert whole[..|whole|] == whole;
    }
  }

  /** The writes from the sender's name on. */
  method SendFromSender(d: Delivery, s: TcpStream, ghost start: seq<char>, ghost room: nat) returns (ok: bool)
    requires s.isOpen && s.output == start + Heading(d) && s.Space() + |Heading(d)| == room
    modifies s`output, s`room
    ensures ok ==> s.output == start + Render(d) && s.Space() + |Render(d)| == room
    ensures !ok ==> room < |Render(d)| && s.output == start + Render(d)[..room] && s.Space() == 0
  {
    ghost var whole, done := Render(d), Heading(d);
    ok := WritePart(s, d.sender, whole, done, start, room);
    if !ok { return; }
    done := done + d.sender;
    ok := WritePart(s, ": ", whole, done, start, room);
    if !ok { return; }
    done := done + ": ";
    ok := WritePart(s, d.msg.content, whole, done, start, room);
    if !ok { return; }
    done := done + d.msg.content;
    ok := WritePart(s, "\n", whole, done, start, room);
  }

  /** A letter whose line a client can read. */
  predicate IsDeliverable(d: Delivery) {
    ValidName(d.sender) && Sendable(d.msg)
  }

  predicate AllDeliverable(ds: seq<Delivery>) {
    forall d | d in ds :: IsDeliverable(d)
  }

  // ------------------------------------------------------ the reader

  /** What a line shows its reader. A direct message does not name its target: that is the
      reader. Any other line is a notice of the server. */
  datatype Seen =
    | SeenDirect(sender: string, content: string)
    | SeenGroup(channel: string, sender: string, content: string)
    | SeenGlobal(sender: string, content: string)
    | Notice

  function Shows(d: Delivery): Seen {
    match d.msg
    case Direct(_, content) => SeenDirect(d.sender, content)
    case Group(to, content) => SeenGroup(to, d.sender, content)
    case Global(content) => SeenGlobal(d.sender, content)
  }

  /** `sender: content`, taken apart at the first colon, which a space must follow. */
  function SplitSender(text: string): Option<(string, string)> {
    var colon := Find(text, ':');
    if |text| < colon + 2 || text[colon + 1] != ' ' then None else Some((text[..colon], text[colon + 2..]))
  }

  function Decode(line: string): Seen {
    if "<DM> @" <= line then
      match SplitSender(line[6..])
      case Some((sender, content)) => SeenDirect(sender, content)
      case None => Notice
    else if "<Global> @" <= line then
      match SplitSender(line[10..])
      case Some((sender, content)) => SeenGlobal(sender, content)
      case None => Notice
    else if "#" <= line then
      var space := Find(line, ' ');
      if space == 0 || |line| < space + 2 || line[space + 1] != '@' then Notice else
      match SplitSender(line[space + 2..])
      case Some((sender, content)) => SeenGroup(line[1..space], sender, content)
      case None => Notice
    else Notice
  }

  lemma SplitSenderOf(sender: string, content: string)
    requires ValidName(sender)
    ensures SplitSender(sender + ": " + content) == Some((sender, content))
  {
    assert ':' !in sender;
    var text := sender + ": " + content;
    assert text == sender + [':'] + ([' '] + content);
    FindIsFirst(sender, ':', [' '] + content);
    assert text[|sender| + 1] == ' ' && text[..|sender|] == sender && text[|sender| + 2..] == content;
  }

  lemma DecodeDirect(behind: string, sender: string, content: string)
    requires SplitSender(behind) == Some((sender, content))
    ensures Decode("<DM> @" + behind) == SeenDirect(sender, content)
  {
    assert ("<DM> @" + behind)[6..] == behind;
  }

  lemma DecodeGlobal(behind: string, sender: string, content: string)
    requires SplitSender(behind) == Some((sender, content))
    ensures Decode("<Global> @" + behind) == SeenGlobal(sender, content)
  {
    var line := "<Global> @" + behind;
    assert line[1] == 'G';
    assert line[10..] == behind;
  }

  lemma DecodeGroup(to: string, behind: string, sender: string, content: string)
    requires SplitSender(behind) == Some((sender, content)) && ' ' !in to
    ensures Decode("#" + to + " @" + behind) == SeenGroup(to, sender, content)
  {
    var line := "#" + to + " @" + behind;
    assert line[0] == '#';
    GroupHeading(to, behind);
  }

  /** The reader gets back what was rendered. */
  lemma DecodeUndoesRender(d: Delivery)
    requires ValidName(d.sender) && Sendable(d.msg)
    ensures Decode(Line(d)) == Shows(d)
  {
    var behind := d.sender + ": " + d.msg.content;
    LineParts(d);
    SplitSenderOf(d.sender, d.msg.content);
    match d.msg
    case Direct(_, content) => DecodeDirect(behind, d.sender, content);
    case Global(content) => DecodeGlobal(behind, d.sender, content);
    case Group(to, content) => DecodeGroup(to, behind, d.sender, content);
  }

  lemma LineParts(d: Delivery)
    ensures Line(d) == Heading(d) + (d.sender + ": " + d.msg.content)
  {
  }

  lemma GroupHeading(to: string, behind: string)
    requires ' ' !in to
    ensures var line := "#" + to + " @" + behind;
            var space := Find(line, ' ');
            space == |to| + 1 && |line| >= space + 2 && line[space + 1] == '@'
            && line[1..space] == to && line[space + 2..] == behind
  {
    var line := "#" + to + " @" + behind;
    assert line == (['#'] + to) + [' '] + (['@'] + behind);
    FindIsFirst(['#'] + to, ' ', ['@'] + behind);
  }

  /** A rendered line has its only newline at the end. */
  lemma LinesAreSingle(d: Delivery)
    requires ValidName(d.sender) && Sendable(d.msg)
    ensures '\n' !in Line(d)
  {
    assert Printable(Heading(d)) by {
      if d.msg.Group? {
        assert Printable(d.msg.to);
      }
    }
    assert !IsValidChar('\n') && Printable(d.msg.content) && '\n' !in d.sender;
  }
}
