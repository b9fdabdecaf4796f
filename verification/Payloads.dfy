/** The client-to-server language: chatd/protocol/payload.cpp. */
module Payloads {
  import opened Collections
  import opened Framing

  const NUL: char := '\0'

  datatype Kind = Subscribe | Unsubscribe | Delete | ListUsers | Logout

  datatype Message =
    | Direct(to: string, content: string)
    | Group(to: string, content: string)
    | Global(content: string)

  datatype Payload = Command(kind: Kind, args: seq<string>) | Msg(msg: Message)

  /** `Crashed` is the member access through a null `cmd`. */
  datatype Parse<+T> = Rejected | Crashed | Accepted(value: T)

  // ------------------------------------------- what a line of text means

  function StripCr(s: string): string {
    if s != [] && s[|s| - 1] == '\r' then s[..|s| - 1] else s
  }

  predicate IsValidChar(c: char) { ' ' <= c <= '~' }

  predicate Printable(s: string) {
    forall c | c in s :: IsValidChar(c)
  }

  function KindOf(word: string): Option<Kind> {
    if word == "subscribe" then Some(Subscribe)
    else if word == "unsubscribe" then Some(Unsubscribe)
    else if word == "delete" then Some(Delete)
    else if word == "listusers" || word == "list_users" then Some(ListUsers)
    else if word == "logout" then Some(Logout)
    else None
  }

  function Arity(kind: Kind): nat {
    match kind
    case Subscribe => 2
    case Logout => 0
    case _ => 1
  }

  /** The non-empty pieces of s between spaces. */
  function Tokens(s: string): seq<string>
    decreases |s|
  {
    var i := Find(s, ' ');
    (if i == 0 then [] else [s[..i]]) + (if i == |s| then [] else Tokens(s[i + 1..]))
  }

  /** The pieces the tokenizer takes: a last piece that no space follows needs two characters. */
  function TakenTokens(s: string): seq<string>
    decreases |s|
  {
    var i := Find(s, ' ');
    if i == |s| then
      if |s| <= 1 then [] else [s]
    else
      (if i == 0 then [] else [s[..i]]) + TakenTokens(s[i + 1..])
  }

  /** The argument part of a command line without its slash. */
  function ArgumentText(line: string): string {
    var i := Find(line, ' ');
    if i == |line| then [] else line[i + 1..]
  }

  function CommandWord(line: string): string {
    line[..Find(line, ' ')]
  }

  function CommandOf(line: string, args: seq<string>): Parse<Payload> {
    match KindOf(CommandWord(line))
    case None => Rejected
    case Some(kind) => if |args| == Arity(kind) then Accepted(Command(kind, args)) else Rejected
  }

  function ParseTargeted(t: string): Parse<Payload>
    requires t != []
  {
    var s := Find(t, ' ');
    if 2 <= s <= |t| - 2 then
      Accepted(Msg(if t[0] == '@' then Direct(t[1..s], t[s + 1..]) else Group(t[1..s], t[s + 1..])))
    else Rejected
  }

  /** The meaning the code gives to a line. */
  function ParseLine(s: string): (r: Parse<Payload>)
    ensures r.Accepted? && r.value.Command? ==> |r.value.args| == Arity(r.value.kind)
  {
    var t := StripCr(s);
    if !Printable(t) || t == [] then Rejected
    else if t == "/" then Crashed
    else if t[0] == '/' then CommandOf(t[1..], TakenTokens(ArgumentText(t[1..])))
    else if t[0] == '@' || t[0] == '#' then ParseTargeted(t)
    else Accepted(Msg(Global(t)))
  }

  /** The documented meaning: every argument counts, and a lone slash is no command. */
  function ParseDocumented(s: string): Parse<Payload> {
    var t := StripCr(s);
    if !Printable(t) || t == [] then Rejected
    else if t[0] == '/' then CommandOf(t[1..], Tokens(ArgumentText(t[1..])))
    else if t[0] == '@' || t[0] == '#' then ParseTargeted(t)
    else Accepted(Msg(Global(t)))
  }

  // ------------------------------------------------ the code, in its buffer

  /** &b[at] is the C string t. */
  ghost predicate IsCString(b: seq<char>, at: nat, t: string) {
    at + |t| < |b| && b[at..at + |t|] == t && NUL !in t && b[at + |t|] == NUL
  }

  /** The result as the code holds it: pointers into the line's own buffer. */
  datatype Parsed =
    | ParsedCommand(kind: Kind, args: seq<nat>)
    | ParsedDirect(to: nat, content: nat)
    | ParsedGroup(to: nat, content: nat)
    | ParsedGlobal(content: nat)

  ghost predicate AllCStrings(b: seq<char>, ats: seq<nat>, ts: seq<string>) {
    |ats| == |ts| && forall k | 0 <= k < |ats| :: IsCString(b, ats[k], ts[k])
  }

  ghost predicate Denotes(b: seq<char>, p: Parsed, value: Payload) {
    match p
    case ParsedCommand(kind, args) =>
      value.Command? && value.kind == kind && AllCStrings(b, args, value.args)
    case ParsedDirect(to, content) =>
      value.Msg? && value.msg.Direct? && IsCString(b, to, value.msg.to) && IsCString(b, content, value.msg.content)
    case ParsedGroup(to, content) =>
      value.Msg? && value.msg.Group? && IsCString(b, to, value.msg.to) && IsCString(b, content, value.msg.content)
    case ParsedGlobal(content) =>
      value.Msg? && value.msg.Global? && IsCString(b, content, value.msg.content)
  }

  /** The buffer holds the text t and its terminator, with the spaces of t[1..i] overwritten. */
  ghost predicate Cut(b: seq<char>, t: string, i: nat) {
    && |t| < |b| && b[|t|] == NUL
    && forall k | 0 <= k < |t| :: b[k] == if 1 <= k < i && t[k] == ' ' then NUL else t[k]
  }

  /** Reads the C string at `at`, as `strcmp` does. */
  method CStringAt(b: array<char>, at: nat, ghost end: nat) returns (t: string)
    requires at <= end < b.Length && b[end] == NUL
    ensures IsCString(b[..], at, t)
  {
    t := [];
    while b[at + |t|] != NUL
      invariant at + |t| <= end && b[at..at + |t|] == t && NUL !in t
      decreases end - |t|
    {
      t := t + [b[at + |t|]];
    }
  }

  lemma CStringIsUnique(b: seq<char>, at: nat, t: string, u: string)
    requires IsCString(b, at, t) && IsCString(b, at, u)
    ensures t == u
  {
    assert forall k | 0 <= k < |t| :: b[at + k] == t[k];
    assert forall k | 0 <= k < |u| :: b[at + k] == u[k];
    assert |t| == |u|;
  }

  /** Lines 15-23 of the source. */
  method Clean(b: array<char>, len0: nat) returns (ok: bool, len: nat)
    requires len0 < b.Length && b[len0] == NUL
    modifies b
    ensures ok == Printable(StripCr(old(b[..len0])))
    ensures ok ==> len == |StripCr(old(b[..len0]))| && Cut(b[..], StripCr(old(b[..len0])), 0)
  {
    len := len0;
    ghost var s := b[..len0];
    var i := 0;
    while i < len
      invariant i <= len0 && b[len0] == NUL
      invariant len == len0 ==> i <= len && b[..len0] == s && Printable(s[..i])
      invariant len != len0 ==> i == len0 == len + 1 && Printable(s[..len])
      invariant len != len0 ==> s[len] == '\r' && b[len] == NUL && b[..len] == s[..len]
    {
      if b[i] == '\r' && i == len - 1 {
        assert s[i] == '\r';
        b[i] := NUL;
        len := len - 1;
      } else if !IsValidChar(b[i]) {
        assert s[i] in StripCr(s) by {
          assert StripCr(s)[i] == s[i];
        }
        return false, len;
      }
      i := i + 1;
    }
    assert len == len0 && s != [] ==> s[..i] == s && s[len - 1] in s[..i];
    assert b[..len] == StripCr(s);
    assert forall k | 0 <= k < len :: b[k] == b[..len][k];
    return true, len;
  }

  /** tok is a stretch of t without spaces, up to a space or to the end of t. */
  ghost predicate IsPiece(t: string, at: nat, tok: string) {
    && 1 <= at && at + |tok| <= |t| && t[at..at + |tok|] == tok && ' ' !in tok
    && (at + |tok| < |t| ==> t[at + |tok|] == ' ')
  }

  ghost predicate ArePieces(t: string, ats: seq<nat>, toks: seq<string>) {
    |ats| == |toks| && forall k | 0 <= k < |ats| :: IsPiece(t, ats[k], toks[k])
  }

  /** Once the spaces are overwritten up to the end of a piece, the piece is a C string. */
  lemma PieceIsCString(b: seq<char>, t: string, i: nat, at: nat, tok: string)
    requires Cut(b, t, i) && Printable(t) && IsPiece(t, at, tok) && i <= |t|
    requires at + |tok| < i || i == |t|
    ensures IsCString(b, at, tok)
  {
    forall k | 0 <= k < |tok|
      ensures b[at + k] == tok[k] && tok[k] != NUL
    {
      assert t[at + k] == tok[k] && IsValidChar(t[at + k]);
    }
  }

  lemma NoSpaceMeansFindEnds(s: string)
    requires ' ' !in s
    ensures Find(s, ' ') == |s|
  {
  }

  /** The next space behind `from` is at position i. */
  lemma SpaceFound(t: string, from: nat, i: nat)
    requires from <= i < |t| && t[i] == ' ' && ' ' !in t[from..i]
    ensures Find(t[from..], ' ') == i - from
    ensures t[from..][..i - from] == t[from..i] && t[from..][i - from + 1..] == t[i + 1..]
  {
    assert t[from..] == t[from..i] + [' '] + t[i + 1..];
    FindIsFirst(t[from..i], ' ', t[i + 1..]);
  }

  /** There is none, and position i is the last. */
  lemma NoSpaceFound(t: string, from: nat, i: nat)
    requires from <= i == |t| - 1 && t[i] != ' ' && ' ' !in t[from..i]
    ensures ' ' !in t[from..] && Find(t[from..], ' ') == |t| - from
  {
    assert t[from..] == t[from..i] + [t[i]];
    NoSpaceMeansFindEnds(t[from..]);
  }

  /** The command word ends at the first space, position i, or with the line. */
  lemma WordIsPiece(t: string, i: nat)
    requires 1 <= i < |t| && ' ' !in t[1..i]
    requires t[i] == ' ' || i == |t| - 1
    ensures CommandWord(t[1..]) == if t[i] == ' ' then t[1..i] else t[1..]
    ensures IsPiece(t, 1, CommandWord(t[1..]))
    ensures ArgumentText(t[1..]) == if t[i] == ' ' then t[i + 1..] else []
  {
    if t[i] == ' ' {
      SpaceFound(t, 1, i);
    } else {
      NoSpaceFound(t, 1, i);
    }
  }

  /** What a boundary at position i adds, when a piece starts at `from`. */
  function TakenAt(t: string, from: nat, i: nat): seq<string>
    requires from <= i < |t|
  {
    if from == i then [] else if t[i] == ' ' then [t[from..i]] else [t[from..]]
  }

  lemma PieceAtBoundary(t: string, from: nat, i: nat)
    requires 1 <= from < i < |t| && ' ' !in t[from..i]
    requires t[i] == ' ' || i == |t| - 1
    ensures IsPiece(t, from, TakenAt(t, from, i)[0])
  {
    if t[i] != ' ' {
      NoSpaceFound(t, from, i);
    }
  }

  lemma TakenAtSpace(t: string, from: nat, i: nat)
    requires from <= i < |t| && ' ' !in t[from..i] && t[i] == ' '
    ensures TakenTokens(t[from..]) == TakenAt(t, from, i) + TakenTokens(t[i + 1..])
  {
    SpaceFound(t, from, i);
  }

  lemma TakenAtEnd(t: string, from: nat, i: nat)
    requires from <= i == |t| - 1 && ' ' !in t[from..i] && t[i] != ' '
    ensures TakenTokens(t[from..]) == TakenAt(t, from, i)
  {
    NoSpaceFound(t, from, i);
  }

  /** Before the word has ended, at position i. */
  ghost predicate InWord(t: string, i: nat, args: seq<nat>) {
    args == [] && 1 <= i <= |t| && ' ' !in t[1..i] && (i == |t| ==> i == 1)
  }

  /** Behind the word, before position i: `taken` is taken, the piece behind lastEnd is open,
      and `all` is what there is to take. */
  ghost predicate InArguments(t: string, i: nat, lastEnd: nat, taken: seq<string>, all: seq<string>) {
    && lastEnd < i <= |t|
    && if i < |t| then ' ' !in t[lastEnd + 1..i] && taken + TakenTokens(t[lastEnd + 1..]) == all
       else taken == all
  }

  lemma NoTokens(s: string)
    requires s == []
    ensures TakenTokens(s) == []
  {
  }

  lemma WordEnds(t: string, i: nat)
    requires InWord(t, i, []) && i < |t|
    requires t[i] == ' ' || i == |t| - 1
    ensures InArguments(t, i + 1, i, [], TakenTokens(ArgumentText(t[1..])))
  {
    WordIsPiece(t, i);
    if i + 1 == |t| {
      NoTokens(ArgumentText(t[1..]));
    }
  }

  lemma ArgumentEnds(t: string, i: nat, lastEnd: nat, taken: seq<string>, all: seq<string>)
    requires InArguments(t, i, lastEnd, taken, all) && i < |t|
    requires t[i] == ' ' || i == |t| - 1
    ensures InArguments(t, i + 1, i, taken + TakenAt(t, lastEnd + 1, i), all)
  {
    hide TakenTokens, TakenAt;
    if t[i] == ' ' {
      TakenAtSpace(t, lastEnd + 1, i);
      Associative(taken, TakenAt(t, lastEnd + 1, i), TakenTokens(t[i + 1..]));
      if i + 1 == |t| {
        NoTokens(t[i + 1..]);
      }
    } else {
      TakenAtEnd(t, lastEnd + 1, i);
    }
  }

  lemma PiecesGrow(t: string, args: seq<nat>, taken: seq<string>, from: nat, i: nat)
    requires ArePieces(t, args, taken) && 1 <= from <= i < |t| && ' ' !in t[from..i]
    requires t[i] == ' ' || i == |t| - 1
    ensures ArePieces(t, if from != i then args + [from] else args, taken + TakenAt(t, from, i))
  {
    if from < i {
      PieceAtBoundary(t, from, i);
    }
  }

  lemma PiecesAreCStrings(b: seq<char>, t: string, args: seq<nat>, taken: seq<string>)
    requires Cut(b, t, |t|) && Printable(t) && ArePieces(t, args, taken)
    ensures AllCStrings(b, args, taken)
  {
    forall k | 0 <= k < |args|
      ensures IsCString(b, args[k], taken[k])
    {
      PieceIsCString(b, t, |t|, args[k], taken[k]);
    }
  }

  /** `strcmp` against the command word, once the character behind it is dealt with. */
  method ReadWord(b: array<char>, ghost t: string, ghost i: nat) returns (word: string)
    requires Cut(b[..], t, i + 1) && Printable(t) && InWord(t, i, []) && i < |t|
    requires t[i] == ' ' || i == |t| - 1
    ensures word == CommandWord(t[1..])
  {
    WordIsPiece(t, i);
    PieceIsCString(b[..], t, i + 1, 1, CommandWord(t[1..]));
    word := CStringAt(b, 1, |t|);
    CStringIsUnique(b[..], 1, word, CommandWord(t[1..]));
  }

  /** What the tokenizer knows before it looks at position i. */
  ghost predicate Tokenizing(b: seq<char>, t: string, i: nat, kind: Option<Kind>,
                             lastEnd: nat, args: seq<nat>, taken: seq<string>, all: seq<string>)
  {
    && 1 <= |t| && Printable(t) && Cut(b, t, i) && ArePieces(t, args, taken)
    && (kind == None ==> InWord(t, i, args))
    && (kind.Some? ==> InArguments(t, i, lastEnd, taken, all) && kind == KindOf(CommandWord(t[1..])))
  }

  lemma TokenizingStarts(b: seq<char>, t: string, all: seq<string>)
    requires 1 <= |t| && Printable(t) && t[0] == '/' && Cut(b, t, 0)
    ensures Tokenizing(b, t, 1, None, 0, [], [], all)
  {
  }

  lemma TokenizingPlainCharacter(b: seq<char>, t: string, i: nat, kind: Option<Kind>, lastEnd: nat,
                                 args: seq<nat>, taken: seq<string>, all: seq<string>)
    requires 1 <= i < |t| - 1 && Tokenizing(b, t, i, kind, lastEnd, args, taken, all)
    requires b[i] != ' '
    ensures Tokenizing(b, t, i + 1, kind, lastEnd, args, taken, all)
  {
    hide Printable, KindOf, CommandWord, ArePieces;
    assert t[1..i + 1] == t[1..i] + [t[i]];
    if lastEnd < i {
      assert t[lastEnd + 1..i + 1] == t[lastEnd + 1..i] + [t[i]];
    }
  }

  lemma TokenizingEnds(b: seq<char>, t: string, kind: Option<Kind>, lastEnd: nat,
                       args: seq<nat>, taken: seq<string>, all: seq<string>)
    requires Tokenizing(b, t, |t|, kind, lastEnd, args, taken, all)
    ensures kind == KindOf(CommandWord(t[1..]))
    ensures kind.Some? ==> AllCStrings(b, args, all)
  {
    PiecesAreCStrings(b, t, args, taken);
    if kind == None {
      assert t[1..] == "";
    }
  }

  /** Lines 30-31 of the source. */
  method CutAt(b: array<char>, i: nat, ghost t: string)
    requires i < |t| && (i == 0 ==> t[0] != ' ') && Cut(b[..], t, i)
    modifies b
    ensures Cut(b[..], t, i + 1)
  {
    if b[i] == ' ' {
      b[i] := NUL;
    }
  }

  lemma TokenizingMoreArguments(b: seq<char>, t: string, i: nat, kind: Option<Kind>, lastEnd: nat,
                                args: seq<nat>, taken: seq<string>, all: seq<string>)
    requires i < |t| && 1 <= |t| && Printable(t) && Cut(b, t, i + 1) && ArePieces(t, args, taken)
    requires kind.Some? && InArguments(t, i, lastEnd, taken, all) && kind == KindOf(CommandWord(t[1..]))
    requires t[i] == ' ' || i == |t| - 1
    ensures Tokenizing(b, t, i + 1, kind, i, if lastEnd + 1 != i then args + [lastEnd + 1] else args,
                       taken + TakenAt(t, lastEnd + 1, i), all)
  {
    ArgumentEnds(t, i, lastEnd, taken, all);
    PiecesGrow(t, args, taken, lastEnd + 1, i);
  }

  /** Lines 29-55 of the source: a word or an argument ends at position i. */
  method EndPiece(b: array<char>, i: nat, kind: Option<Kind>, lastEnd: nat, args: seq<nat>,
                  ghost t: string, ghost taken: seq<string>, ghost all: seq<string>)
    returns (kind': Option<Kind>, args': seq<nat>, ghost taken': seq<string>)
    requires 1 <= i < |t| && Tokenizing(b[..], t, i, kind, lastEnd, args, taken, all)
    requires b[i] == ' ' || i == |t| - 1
    requires all == TakenTokens(ArgumentText(t[1..]))
    modifies b
    ensures kind' == None ==> KindOf(CommandWord(t[1..])) == None
    ensures kind'.Some? ==> Tokenizing(b[..], t, i + 1, kind', i, args', taken', all)
  {
    CutAt(b, i, t);
    if kind == None {
      var word := ReadWord(b, t, i);
      kind', args', taken' := KindOf(word), [], [];
      if kind'.Some? {
        WordEnds(t, i);
      }
    } else {
      TokenizingMoreArguments(b[..], t, i, kind, lastEnd, args, taken, all);
      kind', taken' := kind, taken + TakenAt(t, lastEnd + 1, i);
      args' := if lastEnd + 1 != i then args + [lastEnd + 1] else args;
    }
  }

  /** Lines 25-56 of the source: cuts the line at its spaces, in place. `kind` stays None for
      a lone slash, and for an unknown word, at which the code returns. */
  method Tokenize(b: array<char>, len: nat, ghost t: string) returns (kind: Option<Kind>, args: seq<nat>)
    requires len == |t| >= 1 && Printable(t) && t[0] == '/' && Cut(b[..], t, 0)
    modifies b
    ensures kind == KindOf(CommandWord(t[1..]))
    ensures kind.Some? ==> AllCStrings(b[..], args, TakenTokens(ArgumentText(t[1..])))
  {
    hide TakenTokens, AllCStrings, ArePieces, InWord, InArguments;
    kind, args := None, [];
    var lastEnd := 0;
    ghost var taken: seq<string> := [];
    ghost var all := TakenTokens(ArgumentText(t[1..]));
    TokenizingStarts(b[..], t, all);
    for i := 1 to len
      invariant Tokenizing(b[..], t, i, kind, lastEnd, args, taken, all)
    {
      if b[i] == ' ' || i == len - 1 {
        kind, args, taken := EndPiece(b, i, kind, lastEnd, args, t, taken, all);
        if kind == None {
          return;
        }
        lastEnd := i;
      } else {
        TokenizingPlainCharacter(b[..], t, i, kind, lastEnd, args, taken, all);
      }
    }
    TokenizingEnds(b[..], t, kind, lastEnd, args, taken, all);
  }

  /** Lines 77-99 of the source: the position of the space that ends the target. */
  method SplitTarget(b: array<char>, len: nat, ghost t: string) returns (at: Option<nat>)
    requires len == |t| >= 1 && t[0] != ' ' && Cut(b[..], t, 0)
    modifies b
    ensures at == var s := Find(t, ' '); if 2 <= s <= |t| - 2 then Some(s) else None
    ensures at.Some? ==> b[..] == old(b[..])[at.value := NUL]
  {
    if len < 3 {
      return None;
    }
    var i := 1;
    while i < len
      invariant 1 <= i <= len - 2
      invariant ' ' !in t[..i] && b[..] == old(b[..])
      decreases len - i
    {
      if b[i] == ' ' {
        assert t == t[..i] + [' '] + t[i + 1..];
        FindIsFirst(t[..i], ' ', t[i + 1..]);
        if i == 1 {
          return None;
        }
        b[i] := NUL;
        return Some(i);
      }
      if i >= len - 2 {
        FindNotBefore(t, ' ', i);
        return None;
      }
      i := i + 1;
    }
  }

  /** `Payload::parse` on a NUL-terminated line of len0 bytes. */
  method ParsePayload(b: array<char>, len0: nat) returns (r: Parse<Parsed>)
    requires len0 < b.Length && b[len0] == NUL
    modifies b
    ensures var meaning := ParseLine(old(b[..len0]));
            && (r == Rejected <==> meaning == Rejected)
            && (r == Crashed <==> meaning == Crashed)
            && (r.Accepted? ==> Denotes(b[..], r.value, meaning.value))
  {
    ghost var t := StripCr(b[..len0]);
    var ok, len := Clean(b, len0);
    if !ok {
      return Rejected;
    }
    if b[0] == '/' {
      assert t == [t[0]] + t[1..];
      var kind, args := Tokenize(b, len, t);
      if len > 1 && kind == None {
        return Rejected;
      }
      if kind == None {
        return Crashed;
      }
      return if |args| == Arity(kind.value) then Accepted(ParsedCommand(kind.value, args)) else Rejected;
    } else if b[0] == '@' || b[0] == '#' {
      var sigil := b[0];
      var at := SplitTarget(b, len, t);
      if at == None {
        return Rejected;
      }
      TargetStrings(b[..], t, at.value);
      return Accepted(if sigil == '@' then ParsedDirect(1, at.value + 1) else ParsedGroup(1, at.value + 1));
    } else {
      if len == 0 {
        return Rejected;
      }
      WholeIsCString(b[..], t);
      return Accepted(ParsedGlobal(0));
    }
  }

  lemma WholeIsCString(b: seq<char>, t: string)
    requires Cut(b, t, 0) && Printable(t)
    ensures IsCString(b, 0, t)
  {
    assert forall k | 0 <= k < |t| :: IsValidChar(t[k]);
  }

  lemma TargetStrings(b: seq<char>, t: string, s: nat)
    requires Printable(t) && 2 <= s <= |t| - 2 && |t| < |b|
    requires b[s] == NUL && Cut(b[s := t[s]], t, 0)
    ensures IsCString(b, 1, t[1..s]) && IsCString(b, s + 1, t[s + 1..])
  {
    assert forall k | 0 <= k < |t| :: IsValidChar(t[k]) && b[s := t[s]][k] == t[k];
  }

  /** The C strings at these places. */
  method ReadStrings(b: array<char>, ats: seq<nat>, ghost ts: seq<string>) returns (read: seq<string>)
    requires AllCStrings(b[..], ats, ts)
    ensures read == ts
  {
    read := [];
    for k := 0 to |ats|
      invariant read == ts[..k]
    {
      assert IsCString(b[..], ats[k], ts[k]);
      var t := CStringAt(b, ats[k], ats[k] + |ts[k]|);
      CStringIsUnique(b[..], ats[k], t, ts[k]);
      read := read + [t];
    }
  }

  /** What the pointers of a parsed payload point to. */
  method ReadPayload(b: array<char>, p: Parsed, ghost value: Payload) returns (read: Payload)
    requires Denotes(b[..], p, value)
    ensures read == value
  {
    match p {
      case ParsedCommand(kind, args) =>
        var strings := ReadStrings(b, args, value.args);
        read := Command(kind, strings);
      case ParsedDirect(to, content) =>
        var strings := ReadStrings(b, [to, content], [value.msg.to, value.msg.content]);
        read := Msg(Direct(strings[0], strings[1]));
      case ParsedGroup(to, content) =>
        var strings := ReadStrings(b, [to, content], [value.msg.to, value.msg.content]);
        read := Msg(Group(strings[0], strings[1]));
      case ParsedGlobal(content) =>
        var strings := ReadStrings(b, [content], [value.msg.content]);
        read := Msg(Global(strings[0]));
    }
  }

  /** A line in a buffer of its own, as `readuntil` gives it, through the in-place parser. */
  method ParseInPlace(raw: string) returns (r: Parse<Payload>)
    ensures r == ParseLine(raw)
  {
    var b := new char[|raw| + 1](i requires 0 <= i <= |raw| => if i < |raw| then raw[i] else NUL);
    assert b[..|raw|] == raw;
    var parsed := ParsePayload(b, |raw|);
    match parsed {
      case Rejected => return Rejected;
      case Crashed => return Crashed;
      case Accepted(p) =>
        var read := ReadPayload(b, p, ParseLine(raw).value);
        return Accepted(read);
    }
  }
}
