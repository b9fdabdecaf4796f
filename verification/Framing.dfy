/** Cutting a byte stream into lines: chatd/net/tcp/stream.c. */
module Framing {
  import opened Collections

  const BUFF_CAP: nat := 128

  /** What one successful `read` delivers: between 1 and TCP_STREAM_BUFF_CAP bytes. */
  type Chunk = c: seq<char> | 0 < |c| <= BUFF_CAP witness " "

  type ChunkSize = n: nat | 0 < n <= BUFF_CAP witness 1

  function Flatten(chunks: seq<seq<char>>): seq<char> {
    if chunks == [] then [] else chunks[0] + Flatten(chunks[1..])
  }

  lemma {:induction false} FlattenOneMore(chunks: seq<seq<char>>, k: nat)
    requires k < |chunks|
    ensures Flatten(chunks[..k + 1]) == Flatten(chunks[..k]) + chunks[k]
  {
    if k == 0 {
      assert chunks[..1] == [chunks[0]] && [chunks[0]][1..] == [];
    } else {
      FlattenOneMore(chunks[1..], k - 1);
      assert chunks[..k + 1][1..] == chunks[1..][..k] && chunks[..k][1..] == chunks[1..][..k - 1];
      Associative(chunks[0], Flatten(chunks[1..][..k - 1]), chunks[k]);
    }
  }

  lemma {:induction false} FlattenSplit(chunks: seq<seq<char>>, k: nat)
    requires k <= |chunks|
    ensures Flatten(chunks) == Flatten(chunks[..k]) + Flatten(chunks[k..])
  {
    if k > 0 {
      FlattenSplit(chunks[1..], k - 1);
      assert chunks[..k][1..] == chunks[1..][..k - 1] && chunks[1..][k - 1..] == chunks[k..];
      Associative(chunks[0], Flatten(chunks[1..][..k - 1]), Flatten(chunks[k..]));
    } else {
      assert chunks[..0] == [] && chunks[0..] == chunks;
    }
  }

  /** A text cut into chunks of the given sizes, as far as they go, and full ones from there. */
  function Cut(s: seq<char>, sizes: seq<ChunkSize>): seq<Chunk>
    decreases |s|
  {
    if s == [] then []
    else
      var n := Min(|s|, if sizes == [] then BUFF_CAP else sizes[0]);
      [s[..n]] + Cut(s[n..], if sizes == [] then [] else sizes[1..])
  }

  /** Cutting loses nothing ... */
  lemma {:induction false} CutIsWhole(s: seq<char>, sizes: seq<ChunkSize>)
    ensures Flatten(Cut(s, sizes)) == s
    decreases |s|
  {
    if s != [] {
      var n := Min(|s|, if sizes == [] then BUFF_CAP else sizes[0]);
      CutIsWhole(s[n..], if sizes == [] then [] else sizes[1..]);
      assert Cut(s, sizes)[1..] == Cut(s[n..], if sizes == [] then [] else sizes[1..]);
      assert s == s[..n] + s[n..];
    }
  }

  function SizesOf(chunks: seq<Chunk>): seq<ChunkSize> {
    if chunks == [] then [] else [|chunks[0]|] + SizesOf(chunks[1..])
  }

  /** ... and every way the text can arrive is one of these cuts. */
  lemma {:induction false} EveryCutArises(chunks: seq<Chunk>)
    ensures Cut(Flatten(chunks), SizesOf(chunks)) == chunks
  {
    if chunks != [] {
      var s, sizes := Flatten(chunks), SizesOf(chunks);
      EveryCutArises(chunks[1..]);
      assert s[..|chunks[0]|] == chunks[0] && s[|chunks[0]|..] == Flatten(chunks[1..]);
      assert sizes[0] == |chunks[0]| && sizes[1..] == SizesOf(chunks[1..]);
    }
  }

  // ------------------------------------------ the split of a finite text

  /** Position of the first c, or |s|. */
  function Find(s: seq<char>, c: char): (i: nat)
    ensures i <= |s| && c !in s[..i] && (i < |s| ==> s[i] == c)
  {
    if s == [] || s[0] == c then 0
    else
      var i := Find(s[1..], c) + 1;
      assert s[..i] == [s[0]] + s[1..][..i - 1];
      i
  }

  lemma FindIsFirst(before: seq<char>, c: char, after: seq<char>)
    requires c !in before
    ensures Find(before + [c] + after, c) == |before|
  {
    var s := before + [c] + after;
    if before != [] {
      FindIsFirst(before[1..], c, after);
      assert s[1..] == before[1..] + [c] + after;
    }
  }

  lemma FindNotBefore(s: seq<char>, c: char, i: nat)
    requires i <= |s| && c !in s[..i]
    ensures Find(s, c) >= i
  {
    if i > 0 {
      assert s[0] == s[..i][0];
      assert s[1..][..i - 1] == s[..i][1..];
      FindNotBefore(s[1..], c, i - 1);
    }
  }

  /** The pieces of s that a c ends. */
  function Lines(s: seq<char>, c: char): seq<seq<char>>
    decreases |s|
  {
    var i := Find(s, c);
    if i == |s| then [] else [s[..i]] + Lines(s[i + 1..], c)
  }

  /** What follows the last c. */
  function Rest(s: seq<char>, c: char): seq<char>
    decreases |s|
  {
    var i := Find(s, c);
    if i == |s| then s else Rest(s[i + 1..], c)
  }

  function JoinLines(lines: seq<seq<char>>, c: char): seq<char> {
    if lines == [] then [] else lines[0] + [c] + JoinLines(lines[1..], c)
  }

  lemma LinesStep(line: seq<char>, c: char, rest: seq<char>)
    requires c !in line
    ensures Lines(line + [c] + rest, c) == [line] + Lines(rest, c)
    ensures Rest(line + [c] + rest, c) == Rest(rest, c)
  {
    var s := line + [c] + rest;
    FindIsFirst(line, c, rest);
    assert s[..|line|] == line && s[|line| + 1..] == rest;
  }

  /** A text in two parts: the second goes on where the first leaves off. */
  lemma {:induction false} LinesOfTwo(s: seq<char>, t: seq<char>, c: char)
    ensures Lines(s + t, c) == Lines(s, c) + Lines(Rest(s, c) + t, c)
    ensures Rest(s + t, c) == Rest(Rest(s, c) + t, c)
    decreases |s|
  {
    var i := Find(s, c);
    if i == |s| {
      assert Lines(s, c) == [] && Rest(s, c) == s;
    } else {
      var line, tail := s[..i], s[i + 1..];
      LinesOfTwo(tail, t, c);
      assert s + t == line + [c] + (tail + t);
      LinesStep(line, c, tail + t);
      Associative([line], Lines(tail, c), Lines(Rest(tail, c) + t, c));
    }
  }

  lemma NoLines(s: seq<char>, c: char)
    requires c !in s
    ensures Lines(s, c) == [] && Rest(s, c) == s
  {
  }

  /** `Lines` and `Rest` cut s: put back together they give s ... */
  lemma {:induction false} LinesCutTheText(s: seq<char>, c: char)
    ensures s == JoinLines(Lines(s, c), c) + Rest(s, c)
    decreases |s|
  {
    var i := Find(s, c);
    if i < |s| {
      var line, tail := s[..i], s[i + 1..];
      LinesCutTheText(tail, c);
      JoinStep(line, c, Lines(tail, c));
      Associative(line + [c], JoinLines(Lines(tail, c), c), Rest(tail, c));
      SplitAt(s, i);
    }
  }

  lemma JoinStep(line: seq<char>, c: char, lines: seq<seq<char>>)
    ensures JoinLines([line] + lines, c) == line + [c] + JoinLines(lines, c)
  {
  }

  /** ... no piece holds c ... */
  lemma {:induction false} LinesHoldNoDelimiter(s: seq<char>, c: char)
    ensures forall line | line in Lines(s, c) :: c !in line
    ensures c !in Rest(s, c)
    decreases |s|
  {
    var i := Find(s, c);
    if i < |s| {
      LinesHoldNoDelimiter(s[i + 1..], c);
    } else {
      assert s[..i] == s;
    }
  }

  /** ... and there is no other way to cut it. */
  lemma {:induction false} LinesOfJoined(lines: seq<seq<char>>, c: char, rest: seq<char>)
    requires forall line | line in lines :: c !in line
    requires c !in rest
    ensures Lines(JoinLines(lines, c) + rest, c) == lines
    ensures Rest(JoinLines(lines, c) + rest, c) == rest
  {
    if lines == [] {
      NoLines(rest, c);
      assert [] + rest == rest;
    } else {
      var tail := JoinLines(lines[1..], c);
      LinesOfJoined(lines[1..], c, rest);
      assert lines == [lines[0]] + lines[1..];
      LinesStep(lines[0], c, tail + rest);
      Associative(lines[0] + [c], tail, rest);
    }
  }

  // ---------------------------------------------------------- the stream

  datatype StreamResult = StreamOk | ReadError | WriteError

  /** `*out` of `readuntil`: NULL and "" both stand for the empty line. */
  function LineOf(out: Option<seq<char>>): seq<char> {
    match out
    case None => []
    case Some(line) => line
  }

  /** `struct tcp_stream`. The socket is `incoming`, what the coming calls of `read` deliver
      before end of input; `output`, what was sent; and `room`, how many more bytes the peer
      takes. It is open until it is destroyed. A NULL `buff` is the array of length 0. */
  class TcpStream {
    var buff: array<char>
    var buffLen: nat
    var incoming: seq<Chunk>
    var output: seq<char>
    var room: nat
    var isOpen: bool

    ghost predicate Valid()
      reads this
    {
      buffLen <= buff.Length && buffLen < BUFF_CAP
    }

    ghost function Buffered(): seq<char>
      requires Valid()
      reads this, buff
    {
      buff[..buffLen]
    }

    /** Every byte that is still to be cut into lines. */
    ghost function Pending(): seq<char>
      requires Valid()
      reads this, buff
    {
      Buffered() + Flatten(incoming)
    }

    constructor (incoming: seq<Chunk>, room: nat)
      ensures Valid() && fresh(buff)
      ensures Buffered() == [] && this.incoming == incoming
      ensures output == [] && this.room == room && isOpen
    {
      this.buff := new char[BUFF_CAP];
      this.buffLen := 0;
      this.incoming := incoming;
      this.output := [];
      this.room := room;
      this.isOpen := true;
    }

    /** How many more bytes can be sent. */
    function Space(): nat
      reads this
    {
      if isOpen then room else 0
    }

    /** `send`: sends what fits, and is StreamOk when that was everything. On a closed socket
        even sending nothing fails. */
    method Write(bytes: seq<char>) returns (r: StreamResult)
      modifies this`output, this`room
      ensures r == if isOpen && |bytes| <= old(room) then StreamOk else WriteError
      ensures output == old(output) + bytes[..Min(|bytes|, old(Space()))]
      ensures Space() == old(Space()) - Min(|bytes|, old(Space()))
    {
      if !isOpen {
        return WriteError;
      }
      var sent := Min(|bytes|, room);
      output := output + bytes[..sent];
      room := room - sent;
      return if sent == |bytes| then StreamOk else WriteError;
    }

    /** `tcp_stream_destroy`, as far as sending goes. */
    method Destroy()
      modifies this`isOpen
      ensures !isOpen
    {
      isOpen := false;
    }

    /** Lines 35-39 of the source: drops the first n buffered bytes. */
    method CloseUp(n: nat)
      requires Valid() && n <= buffLen
      modifies this`buffLen, buff
      ensures Valid() && Buffered() == old(Buffered())[n..]
    {
      for j := n to buffLen
        modifies buff
        invariant buff[..j - n] == old(buff[n..j])
        invariant buff[j - n..] == old(buff[j - n..])
      {
        buff[j - n] := buff[j];
      }
      buffLen := buffLen - n;
    }

    /** Lines 63-78 of the source: the bytes before the delimiter go to the line, those behind
        it to a fresh buffer. */
    method TakeChunk(chunk: Chunk, c: char, line: seq<char>) returns (found: bool, longer: seq<char>)
      requires Valid() && buffLen == 0
      modifies this`buff, this`buffLen
      ensures Valid() && (buff == old(buff) || fresh(buff))
      ensures found == (c in chunk)
      ensures !found ==> longer == line + chunk && buffLen == 0
      ensures found ==> longer[..Min(|line|, |longer|)] == line && c !in longer[|line|..]
      ensures found ==> longer + [c] + Buffered() == line + chunk
    {
      found, longer := false, line;
      ghost var at := 0;
      for i := 0 to |chunk|
        invariant Valid() && (buff == old(buff) || fresh(buff))
        invariant !found ==> at == i && c !in chunk[..i] && buffLen == 0
        invariant found ==> at < i && chunk[at] == c && c !in chunk[..at]
        invariant found ==> fresh(buff) && buff.Length == BUFF_CAP && Buffered() == chunk[at + 1..i]
        invariant longer == line + chunk[..at]
      {
        if found {
          buff[buffLen] := chunk[i];
          buffLen := buffLen + 1;
        } else if chunk[i] == c {
          found := true;
          buff := new char[BUFF_CAP];
        } else {
          longer := longer + [chunk[i]];
          at := at + 1;
        }
      }
      if found {
        assert longer[|line|..] == chunk[..at];
        assert chunk == chunk[..at] + [c] + chunk[at + 1..];
      }
    }

    /** Lines 24-44 of the source: a line that is already buffered. */
    method TakeBuffered(c: char) returns (out: Option<seq<char>>)
      requires Valid()
      modifies this`buffLen, buff
      ensures Valid()
      ensures out.Some? == (c in old(Buffered()))
      ensures out.Some? ==> c !in out.value && out.value + [c] + Buffered() == old(Buffered())
      ensures out == None ==> Buffered() == old(Buffered())
    {
      for i := 0 to buffLen
        invariant c !in buff[..i]
      {
        if buff[i] == c {
          out := Some(buff[..i]);
          SplitAt(Buffered(), i);
          CloseUp(i + 1);
          return;
        }
      }
      return None;
    }

    /** Reads up to the next c, calling `read` that many times and no more than needed; `got` is
        what these calls delivered. */
    method ReadUntil(c: char)
      returns (r: StreamResult, out: Option<seq<char>>, len: nat, ghost calls: nat, ghost got: seq<char>)
      requires Valid()
      modifies this`buff, this`buffLen, this`incoming, buff
      ensures Valid() && |Buffered()| < 128 && (buff == old(buff) || fresh(buff))
      ensures calls <= |old(incoming)| && incoming == old(incoming)[calls..] && got == Flatten(old(incoming)[..calls])
      ensures calls > 0 ==> c !in old(Buffered()) + Flatten(old(incoming)[..calls - 1])
      ensures r == if c in old(Buffered()) + got then StreamOk else ReadError
      ensures r == StreamOk ==> c !in LineOf(out) && len == |LineOf(out)|
      ensures r == StreamOk ==> LineOf(out) + [c] + Buffered() == old(Buffered()) + got
      ensures r == ReadError ==> Buffered() == [] && incoming == []
      // a NULL line: empty, and found on the read path
      ensures out == None <==> r == ReadError || (LineOf(out) == [] && c !in old(Buffered()))
    {
      calls, got := 0, [];
      out := TakeBuffered(c);
      if out.Some? {
        return StreamOk, out, |out.value|, 0, [];
      }
      var line := buff[..buffLen];
      buff, buffLen := new char[0], 0;
      ghost var was := line;
      while incoming != []
        invariant Valid() && fresh(buff) && buffLen == 0
        invariant calls <= |old(incoming)| && incoming == old(incoming)[calls..]
        invariant got == Flatten(old(incoming)[..calls])
        invariant calls > 0 ==> c !in was + Flatten(old(incoming)[..calls - 1])
        invariant line == was + got && c !in line
        decreases |incoming|
      {
        var chunk := incoming[0];
        assert chunk == old(incoming)[calls];
        FlattenOneMore(old(incoming), calls);
        Associative(was, got, chunk);
        incoming := incoming[1..];
        calls, got := calls + 1, got + chunk;
        var found, longer := TakeChunk(chunk, c, line);
        if found {
          return StreamOk, if longer == [] then None else Some(longer), |longer|, calls, got;
        }
        line := longer;
      }
      return ReadError, None, |line|, calls, got;
    }

    /** One call of `readuntil`, seen as a cut of the text still to come. */
    method ReadLine(c: char) returns (line: Option<seq<char>>)
      requires Valid()
      modifies this`buff, this`buffLen, this`incoming, buff
      ensures Valid() && (buff == old(buff) || fresh(buff))
      ensures line.Some? == (c in old(Pending()))
      ensures line.Some? ==> c !in line.value && old(Pending()) == line.value + [c] + Pending()
      ensures line == None ==> Pending() == []
    {
      ghost var buffered, chunks := Buffered(), incoming;
      var r, out, _, calls, got := ReadUntil(c);
      FlattenSplit(chunks, calls);
      Associative(buffered, got, Flatten(incoming));
      if r == ReadError {
        return None;
      }
      Associative(LineOf(out) + [c], Buffered(), Flatten(incoming));
      return Some(LineOf(out));
    }

    /** The receive loop of a connection: lines until `readuntil` fails. However the bytes are
        chunked and whatever is already buffered, the lines are those of the whole text. */
    method ReadLines(c: char) returns (lines: seq<seq<char>>)
      requires Valid()
      modifies this`buff, this`buffLen, this`incoming, buff
      ensures Valid()
      ensures lines == Lines(old(Pending()), c)
      ensures Pending() == []
    {
      lines := [];
      while true
        invariant Valid() && (buff == old(buff) || fresh(buff))
        invariant lines + Lines(Pending(), c) == Lines(old(Pending()), c)
        decreases |Pending()|
      {
        ghost var pending := Pending();
        var line := ReadLine(c);
        if line == None {
          NoLines(pending, c);
          return;
        }
        LinesStep(line.value, c, Pending());
        Associative(lines, [line.value], Lines(Pending(), c));
        lines := lines + [line.value];
      }
    }
  }
}
