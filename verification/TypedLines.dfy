/** What each line a client can type means, spelled out: chatd/protocol/payload.cpp and
    PROTOCOL.md. */
module TypedLines {
  import opened Collections
  import opened Framing
  import opened Payloads
  import opened PayloadLaws

  // ----------------------------------------------------------- commands

  /** What may follow the last argument: a space, or nothing if it has two characters. */
  predicate Closes(end: string, w: string) {
    end == " " || (end == "" && |w| > 1)
  }

  lemma LastWordIsTaken(w: string, end: string)
    requires PlainWord(w) && Closes(end, w)
    ensures TakenTokens(w + end) == [w]
  {
    if end == "" {
      NoSpaceMeansFindEnds(w);
      assert w + end == w;
    } else {
      OneWordIsTaken(w, []);
      assert w + end == w + [' '] + [];
    }
  }

  lemma WordIsKnown(word: string, args: string)
    requires PlainWord(word) && Printable(args)
    ensures ParseLine("/" + word + " " + args) == CommandOf(word + " " + args, TakenTokens(args))
    ensures CommandWord(word + " " + args) == word
  {
    hide TakenTokens, KindOf;
    var line := "/" + word + " " + args;
    assert line[1..] == word + " " + args && Printable(line);
    PrintableKeepsNoCr(line);
    WordAndArguments(word, args);
    assert |line| > 1;
    ParsedAsCommand(line);
  }

  lemma OneArgument(word: string, kind: Kind, w: string, end: string)
    requires PlainWord(word) && KindOf(word) == Some(kind) && Arity(kind) == 1
    requires PlainWord(w) && Closes(end, w)
    ensures ParseLine("/" + word + " " + (w + end)) == Accepted(Command(kind, [w]))
  {
    hide KindOf, ParseLine;
    WordIsKnown(word, w + end);
    LastWordIsTaken(w, end);
  }

  lemma TwoArguments(word: string, kind: Kind, w: string, v: string, end: string)
    requires PlainWord(word) && KindOf(word) == Some(kind) && Arity(kind) == 2
    requires PlainWord(w) && PlainWord(v) && Closes(end, v)
    ensures ParseLine("/" + word + " " + (w + " " + (v + end))) == Accepted(Command(kind, [w, v]))
  {
    hide KindOf, ParseLine;
    var args := w + " " + (v + end);
    LastWordIsTaken(v, end);
    OneWordIsTaken(w, v + end);
    assert args == w + [' '] + (v + end);
    assert Printable(end);
    WordIsKnown(word, args);
    assert [w] + [v] == [w, v];
  }

  lemma SubscribeIsRead(name: string, password: string, end: string)
    requires PlainWord(name) && PlainWord(password) && Closes(end, password)
    ensures ParseLine("/subscribe " + name + " " + password + end) == Accepted(Command(Subscribe, [name, password]))
  {
    hide ParseLine, Closes;
    TwoArguments("subscribe", Subscribe, name, password, end);
    var args := name + " " + (password + end);
    assert "/subscribe " + name + " " + password + end == "/subscribe " + args;
    assert "/subscribe " + args == "/" + "subscribe" + " " + args;
  }

  lemma UnsubscribeIsRead(w: string, end: string)
    requires PlainWord(w) && Closes(end, w)
    ensures ParseLine("/unsubscribe " + w + end) == Accepted(Command(Unsubscribe, [w]))
  {
    hide ParseLine;
    OneArgument("unsubscribe", Unsubscribe, w, end);
    assert "/unsubscribe " + w + end == "/" + "unsubscribe" + " " + (w + end);
  }

  lemma DeleteIsRead(w: string, end: string)
    requires PlainWord(w) && Closes(end, w)
    ensures ParseLine("/delete " + w + end) == Accepted(Command(Delete, [w]))
  {
    hide ParseLine;
    OneArgument("delete", Delete, w, end);
    assert "/delete " + w + end == "/" + "delete" + " " + (w + end);
  }

  lemma ListUsersIsRead(w: string, end: string)
    requires PlainWord(w) && Closes(end, w)
    ensures ParseLine("/list_users " + w + end) == Accepted(Command(ListUsers, [w]))
    ensures ParseLine("/listusers " + w + end) == Accepted(Command(ListUsers, [w]))
  {
    hide ParseLine;
    OneArgument("list_users", ListUsers, w, end);
    OneArgument("listusers", ListUsers, w, end);
    assert "/list_users " + w + end == "/" + "list_users" + " " + (w + end);
    assert "/listusers " + w + end == "/" + "listusers" + " " + (w + end);
  }

  lemma LogoutIsRead()
    ensures ParseLine("/logout") == Accepted(Command(Logout, []))
  {
    hide ParseLine;
    var line := "/logout";
    assert Printable(line) && line[1..] == "logout";
    PrintableKeepsNoCr(line);
    NoSpaceMeansFindEnds("logout");
    assert "logout"[..|"logout"|] == "logout";
    ParsedAsCommand(line);
  }

  lemma {:induction false} TakenAreWords(s: string)
    requires Printable(s)
    ensures forall w | w in TakenTokens(s) :: PlainWord(w)
    decreases |s|
  {
    var i := Find(s, ' ');
    if i < |s| {
      TakenAreWords(s[i + 1..]);
    } else {
      assert s[..i] == s;
    }
  }

  lemma KnownWords(word: string, kind: Kind)
    requires KindOf(word) == Some(kind)
    ensures match kind
            case Subscribe => word == "subscribe"
            case Unsubscribe => word == "unsubscribe"
            case Delete => word == "delete"
            case ListUsers => word == "list_users" || word == "listusers"
            case Logout => word == "logout"
  {
  }

  /** A command starts with one of the six words, and has as many arguments as that needs. */
  lemma CommandsStartSo(raw: string, kind: Kind, args: seq<string>)
    requires ParseLine(raw) == Accepted(Command(kind, args))
    ensures exists word :: StartsWith(StripCr(raw), word) && (args != [] ==> |StripCr(raw)| > |word| + 1)
              && match kind
                 case Subscribe => word == "subscribe" && |args| == 2
                 case Unsubscribe => word == "unsubscribe" && |args| == 1
                 case Delete => word == "delete" && |args| == 1
                 case ListUsers => (word == "list_users" || word == "listusers") && |args| == 1
                 case Logout => word == "logout" && args == []
    ensures forall w | w in args :: PlainWord(w)
  {
    var t := StripCr(raw);
    var word, rest := CommandWord(t[1..]), ArgumentText(t[1..]);
    CommandIsParsed(raw, kind, args);
    KnownWords(word, kind);
    TakenAreWords(rest);
    StartsWithWord(t);
    assert Arity(kind) == |args|;
    hide ParseLine, CommandWord, ArgumentText, KindOf, TakenTokens;
  }

  lemma LoneSlashIs(t: string)
    ensures t == "/" <==> |t| == 1 && t[0] == '/'
  {
  }

  lemma CommandIsParsed(raw: string, kind: Kind, args: seq<string>)
    requires ParseLine(raw) == Accepted(Command(kind, args))
    ensures var t := StripCr(raw);
            && |t| > 1 && t[0] == '/' && Printable(t)
            && KindOf(CommandWord(t[1..])) == Some(kind) && args == TakenTokens(ArgumentText(t[1..]))
            && (args != [] ==> ArgumentText(t[1..]) != [])
  {
    hide KindOf, CommandWord, ArgumentText;
    var t := StripCr(raw);
    LoneSlashIs(t);
    NoTokens([]);
  }

  /** A slash, the word, and a space if anything follows. */
  predicate StartsWith(t: string, word: string) {
    "/" + word <= t && (|t| > |word| + 1 ==> "/" + word + " " <= t)
  }

  lemma StartsWithWord(t: string)
    requires t != [] && t[0] == '/'
    ensures StartsWith(t, CommandWord(t[1..]))
    ensures ArgumentText(t[1..]) != [] ==> |t| > |CommandWord(t[1..])| + 1
  {
    var i := Find(t[1..], ' ');
    assert t[1..][..i] == t[1..i + 1];
    assert t[..i + 1] == "/" + CommandWord(t[1..]);
  }

  // ----------------------------------------------------------- messages

  /** Every character is a printable one of ASCII. */
  predicate IsAscii(s: string) {
    forall c | c in s :: 32 <= c as int <= 126
  }

  lemma DirectIsRead(raw: string, to: string, content: string)
    requires StripCr(raw) == "@" + to + " " + content && ' ' !in to
    ensures ParseLine(raw)
         == if to != [] && content != [] && IsAscii(to + content) then Accepted(Msg(Direct(to, content))) else Rejected
  {
    TargetIsFound("@", to, content);
  }

  lemma GroupIsRead(raw: string, to: string, content: string)
    requires StripCr(raw) == "#" + to + " " + content && ' ' !in to
    ensures ParseLine(raw)
         == if to != [] && content != [] && IsAscii(to + content) then Accepted(Msg(Group(to, content))) else Rejected
  {
    TargetIsFound("#", to, content);
  }

  lemma TargetIsFound(sigil: string, to: string, content: string)
    requires ' ' !in to && (sigil == "@" || sigil == "#")
    ensures var t, at := sigil + to + " " + content, |to| + 1;
            && Find(t, ' ') == at && t[0] == sigil[0] && t[1..at] == to && t[at + 1..] == content
            && (Printable(t) <==> IsAscii(to + content))
  {
    var t := sigil + to + " " + content;
    assert t == [sigil[0]] + to + [' '] + content;
    PrintedTargetIsSplit(sigil[0], to, content);
    assert forall c | c in to + content :: c in t;
    assert forall c | c in t :: c == sigil[0] || c == ' ' || c in to + content;
  }

  /** A target that no space follows. */
  lemma NoContentIsRejected(raw: string, to: string)
    requires (StripCr(raw) == "@" + to || StripCr(raw) == "#" + to) && ' ' !in to
    ensures ParseLine(raw) == Rejected
  {
    NoSpaceMeansFindEnds(StripCr(raw));
  }

  /** Whatever starts with no sign is for everybody. */
  lemma GlobalIsRead(raw: string)
    requires StripCr(raw) != [] ==> StripCr(raw)[0] !in "/@#"
    ensures var t := StripCr(raw);
            ParseLine(raw) == if t != [] && IsAscii(t) then Accepted(Msg(Global(t))) else Rejected
  {
    assert Printable(StripCr(raw)) <==> IsAscii(StripCr(raw));
  }

  /** One carriage return at the end of a line is dropped, and only one, and only there. */
  lemma OneReturnIsDropped(t: string)
    ensures ParseLine(t + ['\r']) == if IsAscii(t) then ParseLine(t) else Rejected
    ensures IsAscii(t) ==> StripCr(t) == t
  {
    assert StripCr(t + ['\r']) == t;
    assert Printable(t) <==> IsAscii(t);
    if IsAscii(t) {
      PrintableKeepsNoCr(t);
    }
  }
}
