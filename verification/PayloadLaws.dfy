/** What the client language promises: where the tokenizer departs from its documentation, and
    that printing and parsing undo each other. */
module PayloadLaws {
  import opened Collections
  import opened Framing
  import opened Payloads

  // -------------------------------------------------- the lost last letter

  /** The last argument is a single character that no space follows. */
  predicate EndsInLoneCharacter(s: string) {
    s != [] && s[|s| - 1] != ' ' && (|s| == 1 || s[|s| - 2] == ' ')
  }

  /** The tokenizer takes exactly the arguments, unless the last is a lone character: then it
      takes all but that one. */
  lemma {:induction false} TakenAllOrAllButOne(s: string)
    ensures Tokens(s) == TakenTokens(s) + LoneCharacter(s)
    decreases |s|
  {
    var i := Find(s, ' ');
    if i == |s| {
      LastPiece(s);
    } else {
      TakenAllOrAllButOne(s[i + 1..]);
      OnePieceMore(s, i);
    }
  }

  function LoneCharacter(s: string): seq<string> {
    if EndsInLoneCharacter(s) then [[s[|s| - 1]]] else []
  }

  lemma LastPiece(s: string)
    requires Find(s, ' ') == |s|
    ensures Tokens(s) == TakenTokens(s) + LoneCharacter(s)
  {
    assert s[..|s|] == s;
    assert |s| > 1 ==> s[|s| - 2] in s;
    assert |s| == 1 ==> s == [s[0]];
  }

  function FirstWord(s: string, i: nat): seq<string>
    requires i <= |s|
  {
    if i == 0 then [] else [s[..i]]
  }

  lemma {:induction false} FirstToken(s: string, i: nat)
    requires i == Find(s, ' ') < |s|
    ensures Tokens(s) == FirstWord(s, i) + Tokens(s[i + 1..])
  {
    hide Find;
  }

  lemma {:induction false} FirstTaken(s: string, i: nat)
    requires i == Find(s, ' ') < |s|
    ensures TakenTokens(s) == FirstWord(s, i) + TakenTokens(s[i + 1..])
  {
    hide Find;
  }

  lemma SameLoneCharacter(s: string, i: nat)
    requires i < |s| && s[i] == ' '
    ensures LoneCharacter(s) == LoneCharacter(s[i + 1..])
  {
  }

  lemma OnePieceMore(s: string, i: nat)
    requires i == Find(s, ' ') < |s|
    requires Tokens(s[i + 1..]) == TakenTokens(s[i + 1..]) + LoneCharacter(s[i + 1..])
    ensures Tokens(s) == TakenTokens(s) + LoneCharacter(s)
  {
    hide Tokens, TakenTokens, LoneCharacter, Find, FirstWord;
    var tail := s[i + 1..];
    FirstToken(s, i);
    FirstTaken(s, i);
    SameLoneCharacter(s, i);
    Associative(FirstWord(s, i), TakenTokens(tail), LoneCharacter(tail));
  }

  /** The lines the code reads differently from the documentation: a lone slash, and a known
      command that ends in a lone character and has as many arguments as it needs, or one
      too many. */
  predicate Misread(s: string) {
    var t := StripCr(s);
    && Printable(t) && t != [] && t[0] == '/'
    && (t == "/"
        || (var rest, kind := ArgumentText(t[1..]), KindOf(CommandWord(t[1..]));
            kind.Some? && EndsInLoneCharacter(rest) && 0 <= |Tokens(rest)| - Arity(kind.value) <= 1))
  }

  lemma ReadAsDocumented(s: string)
    ensures ParseLine(s) == ParseDocumented(s) <==> !Misread(s)
  {
    var t := StripCr(s);
    if Printable(t) && t != [] && t[0] == '/' {
      if |t| == 1 {
        assert t == "/" && t[1..] == "";
        assert CommandWord("") == "";
      } else {
        AcceptanceDiffers(t[1..]);
      }
    }
  }

  lemma AcceptanceDiffers(line: string)
    ensures var rest, kind := ArgumentText(line), KindOf(CommandWord(line));
            CommandOf(line, TakenTokens(rest)) == CommandOf(line, Tokens(rest))
            <==> !(kind.Some? && EndsInLoneCharacter(rest) && 0 <= |Tokens(rest)| - Arity(kind.value) <= 1)
  {
    var rest := ArgumentText(line);
    TakenAllOrAllButOne(rest);
    if !EndsInLoneCharacter(rest) {
      assert Tokens(rest) == TakenTokens(rest);
    }
  }

  /** For example, a channel whose name is one letter cannot be deleted this way. */
  lemma OneLetterChannel(c: char)
    requires IsValidChar(c) && c != ' '
    ensures ParseDocumented("/delete " + [c]) == Accepted(Command(Delete, [[c]]))
    ensures ParseLine("/delete " + [c]) == Rejected
  {
    var t := "/delete " + [c];
    assert Printable(t);
    PrintableKeepsNoCr(t);
    assert t[1..] == "delete" + [' '] + [c];
    WordAndArguments("delete", [c]);
    assert ' ' !in [c];
    NoSpaceMeansFindEnds([c]);
    assert [c][..1] == [c];
    assert Tokens([c]) == [[c]];
  }

  /** A lone slash, with or without a carriage return, makes the parser dereference its null
      command; no other line does. */
  method LoneSlash(b: array<char>, len: nat) returns (r: Parse<Parsed>)
    requires len < b.Length && b[len] == NUL
    modifies b
    ensures r == Crashed <==> old(b[..len]) == "/" || old(b[..len]) == "/\r"
  {
    ghost var line := b[..len];
    SlashLines(line);
    r := ParsePayload(b, len);
  }

  lemma SlashLines(s: string)
    ensures ParseLine(s) == Crashed <==> s == "/" || s == "/\r"
  {
    assert StripCr("/") == StripCr("/\r") == "/";
    if s != [] && s[|s| - 1] == '\r' {
      assert s == StripCr(s) + ['\r'];
    }
    assert Printable("/");
  }

  lemma PrintableKeepsNoCr(text: string)
    requires Printable(text)
    ensures StripCr(text) == StripCr(text + ['\r']) == text
  {
    assert text != [] ==> IsValidChar(text[|text| - 1]);
  }

  lemma WordAndArguments(word: string, rest: string)
    requires ' ' !in word
    ensures var line := word + [' '] + rest;
            CommandWord(line) == word && ArgumentText(line) == rest
  {
    FindIsFirst(word, ' ', rest);
  }

  // ----------------------------------------------------------- commands

  function Spaces(n: nat): string {
    seq(n, _ => ' ')
  }

  predicate PlainWord(w: string) {
    w != [] && ' ' !in w && Printable(w)
  }

  /** Every argument closed by a space, with any number of further spaces around it. */
  function PrintArgs(args: seq<string>, gaps: seq<nat>): string
    requires |gaps| == |args| + 1
  {
    if args == [] then Spaces(gaps[0])
    else Spaces(gaps[0]) + (args[0] + [' '] + PrintArgs(args[1..], gaps[1..]))
  }

  lemma {:induction false} SpacesAreSkipped(n: nat, s: string)
    ensures TakenTokens(Spaces(n) + s) == TakenTokens(s)
  {
    if n == 0 {
      assert Spaces(n) + s == s;
    } else {
      SpacesAreSkipped(n - 1, s);
      assert (Spaces(n) + s)[1..] == Spaces(n - 1) + s;
      assert Find(Spaces(n) + s, ' ') == 0;
    }
  }

  lemma {:induction false} PrintedArgsAreTaken(args: seq<string>, gaps: seq<nat>)
    requires |gaps| == |args| + 1
    requires forall w | w in args :: PlainWord(w)
    ensures TakenTokens(PrintArgs(args, gaps)) == args
  {
    if args == [] {
      SpacesAreSkipped(gaps[0], []);
      assert Spaces(gaps[0]) + [] == Spaces(gaps[0]);
    } else {
      var rest := PrintArgs(args[1..], gaps[1..]);
      PrintedArgsAreTaken(args[1..], gaps[1..]);
      SpacesAreSkipped(gaps[0], args[0] + [' '] + rest);
      OneWordIsTaken(args[0], rest);
      assert args == [args[0]] + args[1..];
    }
  }

  lemma {:induction false} PrintedArgsArePrintable(args: seq<string>, gaps: seq<nat>)
    requires |gaps| == |args| + 1
    requires forall w | w in args :: PlainWord(w)
    ensures Printable(PrintArgs(args, gaps))
  {
    if args != [] {
      assert PlainWord(args[0]);
      PrintedArgsArePrintable(args[1..], gaps[1..]);
    }
  }

  lemma OneWordIsTaken(w: string, rest: string)
    requires PlainWord(w)
    ensures TakenTokens(w + [' '] + rest) == [w] + TakenTokens(rest)
  {
    FindIsFirst(w, ' ', rest);
    assert (w + [' '] + rest)[..|w|] == w && (w + [' '] + rest)[|w| + 1..] == rest;
  }

  function PrintCommand(word: string, args: seq<string>, gaps: seq<nat>): string
    requires |gaps| == |args| + 1
  {
    ['/'] + (word + [' '] + PrintArgs(args, gaps))
  }

  /** A printed command parses to itself, however many spaces surround its arguments, and with
      or without a carriage return. */
  lemma CommandRoundTrip(word: string, kind: Kind, args: seq<string>, gaps: seq<nat>)
    requires KindOf(word) == Some(kind) && |args| == Arity(kind) && |gaps| == |args| + 1
    requires forall w | w in args :: PlainWord(w)
    ensures var text := PrintCommand(word, args, gaps);
            ParseLine(text) == ParseLine(text + ['\r']) == Accepted(Command(kind, args))
  {
    hide TakenTokens, PrintArgs, Find, KindOf, ParseLine;
    var text, rest := PrintCommand(word, args, gaps), PrintArgs(args, gaps);
    PrintedArgsAreTaken(args, gaps);
    PrintedArgsArePrintable(args, gaps);
    CommandWordsArePlain(word);
    WordAndArguments(word, rest);
    assert Printable(text);
    PrintableKeepsNoCr(text);
    assert text[1..] == word + [' '] + rest;
    ParsedAsCommand(text);
    ParsedAsCommand(text + ['\r']);
  }

  lemma ParsedAsCommand(s: string)
    requires var t := StripCr(s); Printable(t) && |t| > 1 && t[0] == '/'
    ensures var line := StripCr(s)[1..]; ParseLine(s) == CommandOf(line, TakenTokens(ArgumentText(line)))
  {
  }

  lemma CommandWordsArePlain(word: string)
    requires KindOf(word).Some?
    ensures PlainWord(word)
  {
  }

  // ----------------------------------------------------------- messages

  function Print(m: Message): string {
    match m
    case Direct(to, content) => ['@'] + to + [' '] + content
    case Group(to, content) => ['#'] + to + [' '] + content
    case Global(content) => content
  }

  /** The messages a client can send. */
  predicate Sendable(m: Message) {
    match m
    case Direct(to, content) => PlainWord(to) && content != [] && Printable(content)
    case Group(to, content) => PlainWord(to) && content != [] && Printable(content)
    case Global(content) => content != [] && Printable(content) && content[0] !in "/@#"
  }

  /** An accepted message prints back as the line less its carriage return. */
  lemma AcceptedPrintsBack(s: string, m: Message)
    requires ParseLine(s) == Accepted(Msg(m))
    ensures Print(m) == StripCr(s) && Sendable(m)
  {
    var t := StripCr(s);
    if t[0] == '@' || t[0] == '#' {
      var at := Find(t, ' ');
      assert t == [t[0]] + t[1..at] + [' '] + t[at + 1..];
      assert ' ' !in t[1..at] by {
        assert forall k | 1 <= k < at :: t[k] == t[..at][k];
      }
    }
  }

  /** A printed message parses to itself. */
  lemma PrintedParsesBack(m: Message)
    requires Sendable(m)
    ensures ParseLine(Print(m)) == ParseLine(Print(m) + ['\r']) == Accepted(Msg(m))
  {
    var t := Print(m);
    assert Printable(t);
    PrintableKeepsNoCr(t);
    if !m.Global? {
      PrintedTargetIsSplit(t[0], m.to, m.content);
    }
  }

  lemma PrintedTargetIsSplit(sigil: char, to: string, content: string)
    requires ' ' !in to && sigil != ' '
    ensures var t, at := [sigil] + to + [' '] + content, |to| + 1;
            Find(t, ' ') == at && t[1..at] == to && t[at + 1..] == content
  {
    FindIsFirst([sigil] + to, ' ', content);
  }

  /** A line is accepted as a message exactly when it is a printed one. */
  lemma AcceptedMessages(s: string)
    ensures (exists m :: ParseLine(s) == Accepted(Msg(m))) <==> (exists m :: Sendable(m) && Print(m) == StripCr(s))
  {
    if m :| ParseLine(s) == Accepted(Msg(m)) {
      AcceptedPrintsBack(s, m);
    }
    if m :| Sendable(m) && Print(m) == StripCr(s) {
      PrintedParsesBack(m);
      assert Printable(StripCr(s)) by {
        AcceptedPrintsBack(Print(m), m);
      }
      PrintableKeepsNoCr(StripCr(s));
    }
  }
}
