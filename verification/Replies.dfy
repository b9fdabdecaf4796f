/** The fixed texts the server sends: the string literals of
    chatd/net/connection/handle_payload.cpp, chatd/protocol/command.cpp and protocol.hpp. */
module Replies {
  /** The outcome of a channel command. */
  datatype Reply =
    | AlreadyInChannel
    | Joined
    | InvalidPassword
    | ChannelCreated
    | Unsubscribed
    | ChannelDeleted
    | NotInChannel

  datatype Literal =
    | Welcome
    | IllegalName
    | NameLength
    | Hello
    | AskPassword
    | PasswordHasNul
    | PasswordLength
    | Username(name: string)
    | Exclamation
    | CannotCreateUser
    | ExitBye
    | WrongPassword
    | AskNewAccount
    | InvalidCommand
    | OfReply(reply: Reply)
    | Bye
    | UsersAre
    | Comma
    | Newline
    | ChannelNotFound
    | NotSubscribed

  function JoiningText(reply: Reply): string {
    match reply
    case AlreadyInChannel => "ERR: You are already in the channel!\n"
    case Joined => "SRV: Joined to the channel.\n"
    case InvalidPassword => "ERR: Invalid password!\n"
    case ChannelCreated => "SRV: Channel created.\n"
    case _ => []
  }

  function LeavingText(reply: Reply): string {
    match reply
    case Unsubscribed => "SRV: Unsubscribed!\n"
    case ChannelDeleted => "SRV: Channel deleted.\n"
    case NotInChannel => "ERR: You not in the channel!\n"
    case _ => []
  }

  function TryAgain(reason: string): string {
    reason + "\nERR: Try again: "
  }

  function NameText(literal: Literal): string {
    match literal
    case Welcome => "Welcome to the chat relay!\n" + "Please enter your username: "
    case IllegalName => TryAgain("ERR: Username contains " + "illegal character(s).")
    case NameLength => TryAgain("ERR: Username should between " + "2 and 20 characters length.")
    case _ => []
  }

  function PasswordText(literal: Literal): string {
    match literal
    case AskPassword => "\nSRV: Please enter " + "your password: "
    case PasswordHasNul => "ERR: Password " + "contains null-byte."
    case PasswordLength => TryAgain("ERR: Password should between " + "8 and 64 characters length.")
    case _ => []
  }

  function DecisionText(literal: Literal): string {
    match literal
    case CannotCreateUser => "EXIT: Cannot create user.\n"
    case ExitBye => "EXIT: Bye!\n"
    case WrongPassword => "ERR: Invalid password! " + "Try again: "
    case AskNewAccount => "SRV: No user has found, " + "would you like to a account? (y/n): "
    case _ => []
  }

  function RefusalText(literal: Literal): string {
    match literal
    case InvalidCommand => "ERR: Invalid command!\n"
    case ChannelNotFound => "ERR: Channel not found!\n"
    case NotSubscribed => "ERR: You are not subscribed " + "to any channel!\n"
    case _ => []
  }

  function ShortText(literal: Literal): string {
    match literal
    case Hello => "SRV: Hello @"
    case Exclamation => "!\n"
    case Bye => "SRV: Bye!\n"
    case UsersAre => "SRV: Users subscribed " + "to the channel: "
    case Comma => ", "
    case Newline => "\n"
    case _ => []
  }

  /** What a literal says. */
  function TextOf(literal: Literal): string {
    match literal
    case OfReply(reply) =>
      if reply.Unsubscribed? || reply.ChannelDeleted? || reply.NotInChannel? then LeavingText(reply)
      else JoiningText(reply)
    case Username(name) => name
    case Welcome | IllegalName | NameLength => NameText(literal)
    case AskPassword | PasswordHasNul | PasswordLength => PasswordText(literal)
    case CannotCreateUser | ExitBye | WrongPassword | AskNewAccount => DecisionText(literal)
    case InvalidCommand | ChannelNotFound | NotSubscribed => RefusalText(literal)
    case _ => ShortText(literal)
  }

  // --------------------------------------------- what looks like a message

  /** The text is at the start of a line. */
  predicate AtLineStart(s: string) {
    s == [] || s[|s| - 1] == '\n'
  }

  predicate StartsLine(text: string, i: nat)
    requires i < |text|
  {
    i == 0 || text[i - 1] == '\n'
  }

  /** No line of the text starts as messages do; nor does the text itself. */
  predicate IsPlain(text: string) {
    forall i | 0 <= i < |text| && StartsLine(text, i) :: text[i] != '<' && text[i] != '#'
  }

  lemma PlainOfTwo(s: string, t: string)
    requires IsPlain(s) && IsPlain(t)
    ensures IsPlain(s + t)
  {
    var text := s + t;
    forall i | 0 <= i < |text| && StartsLine(text, i)
      ensures text[i] != '<' && text[i] != '#'
    {
      if i < |s| {
        assert StartsLine(s, i);
      } else {
        assert StartsLine(t, i - |s|);
      }
    }
  }

  predicate HasNoMark(text: string) {
    forall i | 0 <= i < |text| :: text[i] != '<' && text[i] != '#'
  }

  lemma NoMarkOfTwo(s: string, t: string)
    requires HasNoMark(s) && HasNoMark(t)
    ensures HasNoMark(s + t)
  {
  }

  lemma JoiningHasNoMark(reply: Reply)
    ensures HasNoMark(JoiningText(reply))
  {
    match reply
    case AlreadyInChannel => assert HasNoMark(JoiningText(AlreadyInChannel));
    case Joined => assert HasNoMark(JoiningText(Joined));
    case InvalidPassword => assert HasNoMark(JoiningText(InvalidPassword));
    case ChannelCreated => assert HasNoMark(JoiningText(ChannelCreated));
    case _ =>
  }

  lemma LeavingHasNoMark(reply: Reply)
    ensures HasNoMark(LeavingText(reply))
  {
    match reply
    case Unsubscribed => assert HasNoMark(LeavingText(Unsubscribed));
    case ChannelDeleted => assert HasNoMark(LeavingText(ChannelDeleted));
    case NotInChannel => assert HasNoMark(LeavingText(NotInChannel));
    case _ =>
  }

  lemma TryAgainHasNoMark(start: string, end: string)
    requires HasNoMark(start) && HasNoMark(end)
    ensures HasNoMark(TryAgain(start + end))
  {
    NoMarkOfTwo(start, end);
    NoMarkOfTwo(start + end, "\nERR: Try again: ");
  }

  lemma NameTextHasNoMark(literal: Literal)
    ensures HasNoMark(NameText(literal))
  {
    match literal
    case Welcome => NoMarkOfTwo("Welcome to the chat relay!\n", "Please enter your username: ");
    case IllegalName => TryAgainHasNoMark("ERR: Username contains ", "illegal character(s).");
    case NameLength => TryAgainHasNoMark("ERR: Username should between ", "2 and 20 characters length.");
    case _ =>
  }

  lemma PasswordTextHasNoMark(literal: Literal)
    ensures HasNoMark(PasswordText(literal))
  {
    match literal
    case AskPassword => NoMarkOfTwo("\nSRV: Please enter ", "your password: ");
    case PasswordHasNul => NoMarkOfTwo("ERR: Password ", "contains null-byte.");
    case PasswordLength => TryAgainHasNoMark("ERR: Password should between ", "8 and 64 characters length.");
    case _ =>
  }

  lemma DecisionHasNoMark(literal: Literal)
    ensures HasNoMark(DecisionText(literal))
  {
    match literal
    case CannotCreateUser => assert HasNoMark(DecisionText(CannotCreateUser));
    case ExitBye => assert HasNoMark(DecisionText(ExitBye));
    case WrongPassword => NoMarkOfTwo("ERR: Invalid password! ", "Try again: ");
    case AskNewAccount => NoMarkOfTwo("SRV: No user has found, ", "would you like to a account? (y/n): ");
    case _ =>
  }

  lemma RefusalHasNoMark(literal: Literal)
    ensures HasNoMark(RefusalText(literal))
  {
    match literal
    case InvalidCommand => assert HasNoMark(RefusalText(InvalidCommand));
    case ChannelNotFound => assert HasNoMark(RefusalText(ChannelNotFound));
    case NotSubscribed => NoMarkOfTwo("ERR: You are not subscribed ", "to any channel!\n");
    case _ =>
  }

  lemma ShortTextHasNoMark(literal: Literal)
    ensures HasNoMark(ShortText(literal))
  {
    match literal
    case Hello => assert HasNoMark(ShortText(Hello));
    case Exclamation => assert HasNoMark(ShortText(Exclamation));
    case Bye => assert HasNoMark(ShortText(Bye));
    case UsersAre => NoMarkOfTwo("SRV: Users subscribed ", "to the channel: ");
    case Comma => assert HasNoMark(ShortText(Comma));
    case Newline => assert HasNoMark(ShortText(Newline));
    case _ =>
  }

  /** No text of the server's own looks like a message. */
  lemma TextIsPlain(literal: Literal)
    requires literal.Username? ==> IsPlain(literal.name)
    ensures IsPlain(TextOf(literal))
  {
    hide HasNoMark, IsPlain;
    hide JoiningText, LeavingText, NameText, PasswordText, DecisionText, RefusalText, ShortText;
    NameTextHasNoMark(literal);
    PasswordTextHasNoMark(literal);
    DecisionHasNoMark(literal);
    RefusalHasNoMark(literal);
    ShortTextHasNoMark(literal);
    if literal.OfReply? {
      JoiningHasNoMark(literal.reply);
      LeavingHasNoMark(literal.reply);
    }
    if !literal.Username? {
      NoMarkIsPlain(TextOf(literal));
    }
  }

  lemma NoMarkIsPlain(text: string)
    requires HasNoMark(text)
    ensures IsPlain(text)
  {
  }

  /** The texts that end a line. */
  predicate EndsLine(literal: Literal) {
    || literal.OfReply? || literal.Exclamation? || literal.Bye? || literal.Newline?
    || literal.InvalidCommand? || literal.ChannelNotFound? || literal.NotSubscribed?
  }

  lemma LineIsEnded(literal: Literal)
    requires EndsLine(literal)
    ensures TextOf(literal) != [] && AtLineStart(TextOf(literal))
  {
    hide NameText, PasswordText, DecisionText;
    if literal.OfReply? {
      ReplyEndsLine(literal.reply);
    }
  }

  lemma ReplyEndsLine(reply: Reply)
    ensures TextOf(OfReply(reply)) != [] && AtLineStart(TextOf(OfReply(reply)))
  {
  }

  // ------------------------------------------------ what a text tells

  lemma JoiningTells(reply: Reply)
    requires reply.AlreadyInChannel? || reply.InvalidPassword? || reply.Joined? || reply.ChannelCreated?
    ensures (if reply.AlreadyInChannel? || reply.InvalidPassword? then "ERR: " else "SRV: ") <= JoiningText(reply)
  {
    match reply
    case AlreadyInChannel => assert "ERR: " <= JoiningText(AlreadyInChannel);
    case InvalidPassword => assert "ERR: " <= JoiningText(InvalidPassword);
    case Joined => assert "SRV: " <= JoiningText(Joined);
    case ChannelCreated => assert "SRV: " <= JoiningText(ChannelCreated);
  }

  lemma LeavingTells(reply: Reply)
    requires reply.NotInChannel? || reply.Unsubscribed? || reply.ChannelDeleted?
    ensures (if reply.NotInChannel? then "ERR: " else "SRV: ") <= LeavingText(reply)
  {
    match reply
    case NotInChannel => assert "ERR: " <= LeavingText(NotInChannel);
    case Unsubscribed => assert "SRV: " <= LeavingText(Unsubscribed);
    case ChannelDeleted => assert "SRV: " <= LeavingText(ChannelDeleted);
  }

  lemma NameTextTells(literal: Literal)
    requires literal.IllegalName? || literal.NameLength?
    ensures "ERR: " <= TextOf(literal)
  {
    match literal
    case IllegalName => assert "ERR: " <= NameText(IllegalName);
    case NameLength => assert "ERR: " <= NameText(NameLength);
  }

  lemma PasswordTextTells(literal: Literal)
    requires literal.PasswordHasNul? || literal.PasswordLength?
    ensures "ERR: " <= TextOf(literal)
  {
    match literal
    case PasswordHasNul => assert "ERR: " <= PasswordText(PasswordHasNul);
    case PasswordLength => assert "ERR: " <= PasswordText(PasswordLength);
  }

  lemma AskingTells(literal: Literal)
    requires literal.WrongPassword? || literal.AskNewAccount?
    ensures (if literal.WrongPassword? then "ERR: " else "SRV: ") <= TextOf(literal)
  {
    match literal
    case WrongPassword => assert "ERR: " <= DecisionText(WrongPassword);
    case AskNewAccount => assert "SRV: " <= DecisionText(AskNewAccount);
  }

  lemma ExitTells(literal: Literal)
    requires literal.CannotCreateUser? || literal.ExitBye?
    ensures "EXIT: " <= TextOf(literal)
  {
    match literal
    case CannotCreateUser => assert "EXIT: " <= DecisionText(CannotCreateUser);
    case ExitBye => assert "EXIT: " <= DecisionText(ExitBye);
  }

  lemma RefusalTells(literal: Literal)
    requires literal.InvalidCommand? || literal.ChannelNotFound? || literal.NotSubscribed?
    ensures "ERR: " <= TextOf(literal)
  {
    match literal
    case InvalidCommand => assert "ERR: " <= RefusalText(InvalidCommand);
    case ChannelNotFound => assert "ERR: " <= RefusalText(ChannelNotFound);
    case NotSubscribed => assert "ERR: " <= RefusalText(NotSubscribed);
  }

  /** The first word of what the server says: what was refused, what was done or is asked for, and
      what ends the connection before the login. */
  lemma FirstWordTells(literal: Literal)
    ensures match literal
            case OfReply(reply) =>
              (if reply.AlreadyInChannel? || reply.InvalidPassword? || reply.NotInChannel? then "ERR: " else "SRV: ")
              <= TextOf(literal)
            case IllegalName | NameLength | PasswordHasNul | PasswordLength | WrongPassword
               | InvalidCommand | ChannelNotFound | NotSubscribed => "ERR: " <= TextOf(literal)
            case CannotCreateUser | ExitBye => "EXIT: " <= TextOf(literal)
            case Hello | AskNewAccount | Bye | UsersAre => "SRV: " <= TextOf(literal)
            case _ => true
  {
    match literal
    case OfReply(reply) =>
      hide JoiningText, LeavingText;
      if reply.NotInChannel? || reply.Unsubscribed? || reply.ChannelDeleted? {
        LeavingTells(reply);
      } else {
        JoiningTells(reply);
      }
    case IllegalName | NameLength => NameTextTells(literal);
    case PasswordHasNul | PasswordLength => PasswordTextTells(literal);
    case WrongPassword | AskNewAccount => AskingTells(literal);
    case CannotCreateUser | ExitBye => ExitTells(literal);
    case InvalidCommand | ChannelNotFound | NotSubscribed => RefusalTells(literal);
    case Hello => assert "SRV: " <= ShortText(Hello);
    case Bye => assert "SRV: " <= ShortText(Bye);
    case UsersAre => assert "SRV: " <= ShortText(UsersAre);
    case _ =>
  }

  /** How long each text is. */
  function SizeOf(literal: Literal): nat
    requires !literal.Username?
  {
    match literal
    case OfReply(AlreadyInChannel) => 37
    case OfReply(Joined) => 28
    case OfReply(InvalidPassword) => 23
    case OfReply(ChannelCreated) => 22
    case OfReply(Unsubscribed) => 19
    case OfReply(ChannelDeleted) => 22
    case OfReply(NotInChannel) => 29
    case Welcome => 55
    case IllegalName => 61
    case NameLength => 73
    case AskPassword => 34
    case PasswordHasNul => 33
    case PasswordLength => 73
    case CannotCreateUser => 26
    case ExitBye => 11
    case WrongPassword => 34
    case AskNewAccount => 60
    case InvalidCommand => 22
    case ChannelNotFound => 24
    case NotSubscribed => 44
    case Hello => 12
    case Exclamation => 2
    case Bye => 10
    case UsersAre => 38
    case Comma => 2
    case Newline => 1
  }

  lemma ReplyHasSize(reply: Reply)
    ensures |TextOf(OfReply(reply))| == SizeOf(OfReply(reply))
  {
    match reply
    case AlreadyInChannel => assert |JoiningText(AlreadyInChannel)| == 37;
    case Joined => assert |JoiningText(Joined)| == 28;
    case InvalidPassword => assert |JoiningText(InvalidPassword)| == 23;
    case ChannelCreated => assert |JoiningText(ChannelCreated)| == 22;
    case Unsubscribed => assert |LeavingText(Unsubscribed)| == 19;
    case ChannelDeleted => assert |LeavingText(ChannelDeleted)| == 22;
    case NotInChannel => assert |LeavingText(NotInChannel)| == 29;
  }

  lemma EntryTextHasSize(literal: Literal)
    requires literal.Welcome? || literal.IllegalName? || literal.NameLength?
      || literal.AskPassword? || literal.PasswordHasNul? || literal.PasswordLength?
    ensures |TextOf(literal)| == SizeOf(literal)
  {
    match literal
    case Welcome => assert |NameText(Welcome)| == 55;
    case IllegalName => assert |NameText(IllegalName)| == 61;
    case NameLength => assert |NameText(NameLength)| == 73;
    case AskPassword => assert |PasswordText(AskPassword)| == 34;
    case PasswordHasNul => assert |PasswordText(PasswordHasNul)| == 33;
    case PasswordLength => assert |PasswordText(PasswordLength)| == 73;
  }

  lemma OtherTextHasSize(literal: Literal)
    requires literal.CannotCreateUser? || literal.ExitBye? || literal.WrongPassword? || literal.AskNewAccount?
      || literal.InvalidCommand? || literal.ChannelNotFound? || literal.NotSubscribed?
    ensures |TextOf(literal)| == SizeOf(literal)
  {
    match literal
    case CannotCreateUser => assert |DecisionText(CannotCreateUser)| == 26;
    case ExitBye => assert |DecisionText(ExitBye)| == 11;
    case WrongPassword => assert |DecisionText(WrongPassword)| == 34;
    case AskNewAccount => assert |DecisionText(AskNewAccount)| == 60;
    case InvalidCommand => assert |RefusalText(InvalidCommand)| == 22;
    case ChannelNotFound => assert |RefusalText(ChannelNotFound)| == 24;
    case NotSubscribed => assert |RefusalText(NotSubscribed)| == 44;
  }

  lemma HasSize(literal: Literal)
    requires !literal.Username?
    ensures |TextOf(literal)| == SizeOf(literal)
  {
    match literal
    case OfReply(reply) => ReplyHasSize(reply);
    case Welcome | IllegalName | NameLength | AskPassword | PasswordHasNul | PasswordLength =>
      EntryTextHasSize(literal);
    case CannotCreateUser | ExitBye | WrongPassword | AskNewAccount
       | InvalidCommand | ChannelNotFound | NotSubscribed => OtherTextHasSize(literal);
    case Hello => assert |ShortText(Hello)| == 12;
    case UsersAre => assert |ShortText(UsersAre)| == 38;
    case _ =>
  }

  // where texts of one length differ

  lemma CommandTextsDiffer()
    ensures TextOf(OfReply(ChannelCreated)) != TextOf(OfReply(ChannelDeleted))
    ensures TextOf(InvalidCommand) != TextOf(OfReply(ChannelCreated))
    ensures TextOf(InvalidCommand) != TextOf(OfReply(ChannelDeleted))
  {
    var created, deleted := JoiningText(ChannelCreated), LeavingText(ChannelDeleted);
    assert created[0] == deleted[0] == 'S' && created[13] == 'c' && deleted[13] == 'd';
    assert RefusalText(InvalidCommand)[0] == 'E';
  }

  lemma LengthTextsDiffer()
    ensures TextOf(NameLength) != TextOf(PasswordLength)
  {
    assert NameText(NameLength)[5] == 'U' && PasswordText(PasswordLength)[5] == 'P';
  }

  lemma AskingTextsDiffer()
    ensures TextOf(AskPassword) != TextOf(WrongPassword)
  {
    assert PasswordText(AskPassword)[0] == '\n' && DecisionText(WrongPassword)[0] == 'E';
  }

  lemma SignsDiffer()
    ensures TextOf(Exclamation) != TextOf(Comma)
  {
    assert ShortText(Exclamation)[0] == '!' && ShortText(Comma)[0] == ',';
  }

  /** No two things the server says read alike. */
  lemma TextsDiffer(a: Literal, b: Literal)
    requires !a.Username? && !b.Username? && TextOf(a) == TextOf(b)
    ensures a == b
  {
    hide TextOf;
    HasSize(a);
    HasSize(b);
    CommandTextsDiffer();
    LengthTextsDiffer();
    AskingTextsDiffer();
    SignsDiffer();
  }
}
