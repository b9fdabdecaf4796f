/** The transmit queue of a connection: chatd/net/connection/connection.cpp. Pushes and the
    rounds of the transmit loop are atomic steps that may interleave in any order. */
module Transmission {
  import opened Collections
  import opened Framing
  import opened Outboxes
  import opened Replies
  import opened Ring

  datatype Event =
    | DoPush(p: Outgoing)
    | DoSend(text: string)
    | DoRound
    | DoEndOfDrain
    | DoTerminate
    | DoGracefullyTerminate

  /** The transmitting half of `Connection`. `terminated` is the local of `tx_thread`. */
  class Transmitter {
    var queue: RingBuffer<Outgoing>
    var stream: TcpStream
    var isReady: bool
    var isKilled: bool
    var isGracefullyTerminated: bool
    var terminated: bool

    /** Everything ever queued, everything fully written, and the payload whose write failed. */
    ghost var pushed: seq<Outgoing>
    ghost var written: seq<Outgoing>
    ghost var failed: seq<Outgoing>

    /** Nothing is lost, doubled or reordered: what was pushed is what was written, then at most
        one failed payload, then what is queued; and the stream carries exactly the bytes of
        what was written, then a proper part of those of the failed payload. A killed
        connection's stream is closed. */
    ghost predicate Valid()
      reads this, queue, queue.arr, stream
    {
      && queue.Valid()
      && pushed == written + failed + queue.Contents()
      && |failed| == (if terminated then 1 else 0)
      && (terminated ==> !isReady)
      && (isKilled ==> !stream.isOpen)
      && (failed == [] ==> stream.output == AllBytes(written))
      && (failed != [] ==> IsCutOff(stream.output, AllBytes(written), Bytes(failed[0])))
    }

    constructor (stream: TcpStream)
      requires stream.output == []
      ensures Valid() && fresh(queue) && fresh(queue.arr) && this.stream == stream
      ensures pushed == written == failed == [] && !terminated
    {
      var _, q := RingBuffer<Outgoing>.WithCapacity(EXPAND_DELTA);
      queue, this.stream := q, stream;
      isReady, isKilled, isGracefullyTerminated, terminated := true, false, false, false;
      pushed, written, failed := [], [], [];
    }

    method PushPayload(p: Outgoing)
      requires Valid()
      modifies this`pushed, queue, queue.arr
      ensures Valid() && (queue.arr == old(queue.arr) || fresh(queue.arr))
      ensures pushed == old(pushed) + [p] && queue.Contents() == old(queue.Contents()) + [p]
    {
      ghost var waiting := queue.Contents();
      var _ := queue.PushFront(p);
      pushed := pushed + [p];
      Associative(written + failed, waiting, [p]);
    }

    /** `send`: dropped once the connection is being terminated gracefully. */
    method SendBuff(text: string)
      requires Valid()
      modifies this`pushed, queue, queue.arr
      ensures Valid() && (queue.arr == old(queue.arr) || fresh(queue.arr))
      ensures pushed == if isGracefullyTerminated then old(pushed) else old(pushed) + [Buff(text)]
    {
      if isGracefullyTerminated {
        return;
      }
      PushPayload(Buff(text));
    }

    /** Lines 98-107 of the source: hands one payload to the stream. */
    method WritePayload(p: Outgoing) returns (ok: bool)
      modifies stream`output, stream`room
      ensures ok == (stream.isOpen && |Bytes(p)| <= old(stream.room))
      ensures ok ==> stream.output == old(stream.output) + Bytes(p)
      ensures stream.Space() == old(stream.Space()) - Min(|Bytes(p)|, old(stream.Space()))
      ensures !ok ==> IsCutOff(stream.output, old(stream.output), Bytes(p))
      ensures !stream.isOpen ==> stream.output == old(stream.output)
    {
      match p {
        case Letter(d) => ok := Messages.Send(d, stream);
        case StringLiteral(literal) =>
          var r := stream.Write(TextOf(literal));
          ok := r == StreamOk;
        case Buff(text) =>
          var r := stream.Write(text);
          ok := r == StreamOk;
      }
      assert Bytes(p)[..|Bytes(p)|] == Bytes(p);
    }

    /** One round of the transmit loop: pops a payload and writes it. */
    method Round()
      requires Valid()
      modifies this`isReady, this`terminated, this`written, this`failed, queue, stream`output, stream`room
      ensures Valid() && queue.arr == old(queue.arr) && pushed == old(pushed)
      ensures old(terminated) || old(queue.Contents()) == [] ==>
        written == old(written) && failed == old(failed) && stream.output == old(stream.output)
      ensures !old(terminated) && old(queue.Contents()) != [] ==>
        var p := old(queue.Contents())[0];
        if stream.isOpen && |Bytes(p)| <= old(stream.room) then
          written == old(written) + [p] && !terminated && stream.room == old(stream.room) - |Bytes(p)|
          && queue.Contents() == old(queue.Contents())[1..]
        else
          written == old(written) && failed == [p] && terminated && !isReady
      ensures !stream.isOpen ==> written == old(written) && stream.output == old(stream.output)
    {
      if queue.size > 0 && !terminated {
        ghost var waiting := queue.Contents();
        var _, p := queue.PopBack();
        var ok := WritePayload(p.value);
        Associative(written, [p.value], queue.Contents());
        assert written + [] == written;
        if ok {
          AllBytesOfTwo(written, [p.value]);
          AllBytesOfOne(p.value);
          written := written + [p.value];
          assert written + [] == written;
        } else {
          failed := [p.value];
          isReady, terminated := false, true;
        }
      }
    }

    /** The peer takes everything that is queued. */
    ghost predicate HasRoom()
      requires queue.Valid()
      reads this, queue, queue.arr, stream
    {
      !terminated && stream.isOpen && Need() <= stream.room
    }

    /** The bytes that are queued. */
    ghost function Need(): nat
      requires queue.Valid()
      reads this, queue, queue.arr
    {
      |AllBytes(queue.Contents())|
    }

    /** A push, and then that many rounds. */
    method PushAndRun(p: Outgoing, rounds: nat)
      requires Valid() && !terminated && stream.isOpen && Need() + |Bytes(p)| <= stream.room
      modifies this`pushed, this`isReady, this`terminated, this`written, this`failed
      modifies queue, queue.arr, stream`output, stream`room
      ensures Valid() && (queue.arr == old(queue.arr) || fresh(queue.arr))
      ensures HasRoom() && pushed == old(pushed) + [p]
      ensures stream.room - Need() == old(stream.room - Need()) - |Bytes(p)|
    {
      hide AllBytes, Bytes;
      AllBytesOneMore(queue.Contents(), p);
      PushPayload(p);
      Rounds(rounds);
    }

    method Rounds(n: nat)
      requires Valid() && HasRoom()
      modifies this`isReady, this`terminated, this`written, this`failed, queue, stream`output, stream`room
      ensures Valid() && queue.arr == old(queue.arr) && pushed == old(pushed)
      ensures HasRoom() && stream.room - Need() == old(stream.room - Need())
      ensures queue.size == if n < old(queue.size) then old(queue.size) - n else 0
    {
      for i := 0 to n
        invariant Valid() && queue.arr == old(queue.arr) && pushed == old(pushed)
        invariant HasRoom() && stream.room - Need() == old(stream.room - Need())
        invariant queue.size == if i < old(queue.size) then old(queue.size) - i else 0
      {
        if queue.size > 0 {
          AllBytesOfFirst(queue.Contents());
          Round();
        }
      }
    }

    /** The inner loop of `tx_thread`, run without interruption. */
    method Drain()
      requires Valid()
      modifies this`isReady, this`terminated, this`written, this`failed, queue, stream`output, stream`room
      ensures Valid() && pushed == old(pushed)
      ensures terminated || queue.Contents() == []
      ensures old(HasRoom()) ==> !terminated && written == pushed && stream.output == AllBytes(pushed)
    {
      while queue.size > 0 && !terminated
        invariant Valid() && pushed == old(pushed) && queue.arr == old(queue.arr)
        invariant old(HasRoom()) ==> HasRoom()
        decreases queue.size
      {
        AllBytesOfFirst(queue.Contents());
        Round();
      }
      assert written + [] + [] == written;
    }

    /** The first call closes the stream. */
    method Terminate()
      requires Valid()
      modifies this`isKilled, stream`isOpen
      ensures Valid() && isKilled && !stream.isOpen
    {
      if !isKilled {
        isKilled := true;
        stream.Destroy();
      }
    }

    method GracefullyTerminate()
      modifies this`isGracefullyTerminated
      ensures isGracefullyTerminated
    {
      isGracefullyTerminated := true;
    }

    /** What follows the inner loop. */
    method EndOfDrain()
      requires Valid()
      modifies this`isKilled, stream`isOpen
      ensures Valid() && isKilled == (old(isKilled) || isGracefullyTerminated)
      ensures stream.isOpen == (old(stream.isOpen) && !isGracefullyTerminated)
    {
      if isGracefullyTerminated {
        Terminate();
      }
    }

    /** After a failed write, or once the stream is closed, nothing more is written. */
    ghost predicate Stopped(wasTerminated: bool, wasOpen: bool, wasWritten: seq<Outgoing>, wasOutput: string)
      reads this, stream
    {
      wasTerminated || !wasOpen ==> written == wasWritten && stream.output == wasOutput
    }

    method Step(e: Event)
      requires Valid()
      modifies this, queue, queue.arr, stream`output, stream`room, stream`isOpen
      ensures Valid() && queue == old(queue) && stream == old(stream)
      ensures queue.arr == old(queue.arr) || fresh(queue.arr)
      ensures pushed == old(pushed) + QueuedBy(e, old(isGracefullyTerminated))
      ensures isGracefullyTerminated == (old(isGracefullyTerminated) || e.DoGracefullyTerminate?)
      ensures old(written) <= written && (stream.isOpen ==> old(stream.isOpen))
      ensures Stopped(old(terminated), old(stream.isOpen), old(written), old(stream.output))
      ensures old(terminated) ==> terminated && failed == old(failed)
      ensures isKilled == (old(isKilled) || Kills(e, old(isGracefullyTerminated)))
      ensures !terminated ==> queue.size == LeftBy(e, old(queue.size), old(isGracefullyTerminated))
    {
      hide AllBytes, Bytes, IsCutOff;
      assert pushed + [] == pushed;
      match e
      case DoPush(p) => PushPayload(p);
      case DoSend(text) => SendBuff(text);
      case DoRound => Round();
      case DoEndOfDrain => EndOfDrain();
      case DoTerminate => Terminate();
      case DoGracefullyTerminate => GracefullyTerminate();
    }

    /** Over any interleaving of the steps every pushed payload stays accounted for, what was
        written is a prefix of what was pushed and only grows, and after a failed write, or once
        the connection is killed, nothing more goes out. */
    method Run(events: seq<Event>)
      requires Valid()
      modifies this, queue, queue.arr, stream`output, stream`room, stream`isOpen
      ensures Valid() && queue == old(queue) && stream == old(stream)
      ensures queue.arr == old(queue.arr) || fresh(queue.arr)
      ensures pushed == old(pushed) + Queued(events, old(isGracefullyTerminated))
      ensures isGracefullyTerminated == (old(isGracefullyTerminated) || DoGracefullyTerminate in events)
      ensures stream.isOpen ==> old(stream.isOpen)
      ensures old(written) <= written <= pushed
      ensures Stopped(old(terminated), old(stream.isOpen), old(written), old(stream.output))
      ensures old(terminated) ==> terminated && failed == old(failed)
      ensures isKilled <==> old(isKilled) || exists k: nat :: KillsAt(events, k, old(isGracefullyTerminated))
      ensures !terminated ==> queue.size == Left(events, old(queue.size), old(isGracefullyTerminated))
    {
      hide AllBytes, Bytes, IsCutOff, QueuedBy, Kills, LeftBy;
      if events != [] {
        var n := |events| - 1;
        assert events == events[..n] + [events[n]];
        KillsOneMore(events, old(isGracefullyTerminated));
        Run(events[..n]);
        Associative(old(pushed), Queued(events[..n], old(isGracefullyTerminated)),
                    QueuedBy(events[n], isGracefullyTerminated));
        Step(events[n]);
      }
    }
  }

  /** What an event adds to the queue; plain text is dropped while terminating gracefully. */
  function QueuedBy(e: Event, graceful: bool): seq<Outgoing> {
    match e
    case DoPush(p) => [p]
    case DoSend(text) => Sent(graceful, text)
    case _ => []
  }

  function Queued(events: seq<Event>, graceful: bool): seq<Outgoing> {
    if events == [] then []
    else
      var before := events[..|events| - 1];
      Queued(before, graceful) + QueuedBy(events[|events| - 1], graceful || DoGracefullyTerminate in before)
  }

  /** Terminating kills the connection, and so does the end of a drain while it is terminating
      gracefully. */
  predicate Kills(e: Event, graceful: bool) {
    e.DoTerminate? || (e.DoEndOfDrain? && graceful)
  }

  /** The k-th event does. */
  predicate KillsAt(events: seq<Event>, k: nat, graceful: bool) {
    k < |events| && Kills(events[k], graceful || DoGracefullyTerminate in events[..k])
  }

  lemma KillsOneMore(events: seq<Event>, graceful: bool)
    requires events != []
    ensures var before := events[..|events| - 1];
            (exists k: nat :: KillsAt(events, k, graceful))
            <==> (exists k: nat :: KillsAt(before, k, graceful))
                 || Kills(events[|events| - 1], graceful || DoGracefullyTerminate in before)
  {
    hide Kills;
    var n := |events| - 1;
    forall k: nat | k < n
      ensures KillsAt(events, k, graceful) <==> KillsAt(events[..n], k, graceful)
    {
      assert events[..n][..k] == events[..k];
    }
    assert KillsAt(events, n, graceful) <==> Kills(events[n], graceful || DoGracefullyTerminate in events[..n]);
  }

  /** How many payloads wait after an event, when n waited before and no write has failed. */
  function LeftBy(e: Event, n: nat, graceful: bool): nat {
    match e
    case DoPush(_) => n + 1
    case DoSend(_) => if graceful then n else n + 1
    case DoRound => if n == 0 then 0 else n - 1
    case _ => n
  }

  function Left(events: seq<Event>, n: nat, graceful: bool): nat {
    if events == [] then n
    else
      var before := events[..|events| - 1];
      LeftBy(events[|events| - 1], Left(before, n, graceful), graceful || DoGracefullyTerminate in before)
  }

  /** As many rounds as there are payloads leave none waiting; fewer leave the others. */
  lemma {:induction false} RoundsEmpty(events: seq<Event>, n: nat, graceful: bool)
    requires forall k | 0 <= k < |events| :: events[k].DoRound?
    ensures Left(events, n, graceful) == if |events| < n then n - |events| else 0
  {
    if events != [] {
      RoundsEmpty(events[..|events| - 1], n, graceful);
    }
  }

  /** `out` continues `start` with a proper part of `bytes`, if they have one. */
  ghost predicate IsCutOff(out: string, start: string, bytes: string) {
    exists k: nat | k <= |bytes| :: out == start + bytes[..k] && (k < |bytes| || k == 0)
  }

  // ------------------------------------------------------- to the client

  /** Whatever interleaving of pushes and rounds led here without a failed write: if the peer
      takes the rest, then once the queue is drained everything pushed is written, the stream
      carries exactly its bytes, and a client that receives them, in chunks of any sizes, reads
      the lines of that text. */
  method DrainAndRead(conn: Transmitter, sizes: seq<ChunkSize>) returns (lines: seq<string>)
    requires conn.Valid() && conn.HasRoom()
    modifies conn, conn.queue, conn.stream
    ensures conn.Valid() && conn.stream == old(conn.stream)
    ensures conn.written == conn.pushed == old(conn.pushed) && conn.stream.output == AllBytes(conn.pushed)
    ensures lines == Lines(AllBytes(conn.pushed), '\n')
  {
    conn.Drain();
    var bytes := conn.stream.output;
    var client := new TcpStream(Cut(bytes, sizes), 0);
    CutIsWhole(bytes, sizes);
    assert client.Pending() == bytes;
    lines := client.ReadLines('\n');
  }
}
