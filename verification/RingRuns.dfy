/** Whole runs of the ring buffer against a plain sequence. */
module RingRuns {
  import opened Collections
  import opened Vectors
  import opened Ring

  datatype Op<T> =
    | PushFront(e: T)
    | PushBack(e: T)
    | PopFront
    | PopBack
    | InsertAt(index: nat, e: T)
    | RemoveAt(index: nat)
    | Expand(cap: nat)
    | Shrink(cap: nat, hasDst: bool)

  /** What an operation makes of a plain sequence, and the elements it hands out. */
  function Plain<T>(s: seq<T>, op: Op<T>): (seq<T>, seq<T>) {
    match op
    case PushFront(e) => (s + [e], [])
    case PushBack(e) => ([e] + s, [])
    case PopFront => if s == [] then (s, []) else (s[..|s| - 1], [s[|s| - 1]])
    case PopBack => if s == [] then (s, []) else (s[1..], [s[0]])
    case InsertAt(i, e) => (if i <= |s| then Inserted(s, i, e) else s, [])
    case RemoveAt(i) => if i < |s| then (Removed(s, i), [s[i]]) else (s, [])
    case Expand(_) => (s, [])
    case Shrink(c, hasDst) => if c < |s| then (s[..c], if hasDst then s[c..] else []) else (s, [])
  }

  /** A buffer as its callers see it, and where in the block its elements start. */
  datatype Buffer<T> = Buffer(elements: seq<T>, cap: nat, tail: nat)

  predicate Fits<T>(b: Buffer<T>) {
    |b.elements| <= b.cap && (if b.cap == 0 then b.tail == 0 else b.tail < b.cap)
  }

  /** A shrink that would not do as documented; a run passes over it. */
  predicate PassesOver<T>(b: Buffer<T>, op: Op<T>) {
    op.Shrink? && op.cap <= b.cap && !IsFaithful(b.cap, b.tail, |b.elements|, op.cap, op.hasDst)
  }

  function CodeOf<T>(b: Buffer<T>, op: Op<T>): CResult {
    match op
    case PushFront(_) => Ok
    case PushBack(_) => Ok
    case PopFront => if b.elements == [] then Empty else Ok
    case PopBack => if b.elements == [] then Empty else Ok
    case InsertAt(i, _) => if i > |b.elements| then OutOfBounds else Ok
    case RemoveAt(i) => if i >= |b.elements| then OutOfBounds else Ok
    case Expand(c) => if b.cap > c then CapGreater else Ok
    case Shrink(c, _) => if b.cap < c then CapLower else Ok
  }

  function CapAfter<T>(b: Buffer<T>, op: Op<T>): nat {
    var grown := if |b.elements| == b.cap then b.cap + EXPAND_DELTA else b.cap;
    match op
    case PushFront(_) => grown
    case PushBack(_) => grown
    case InsertAt(i, _) => if i <= |b.elements| then grown else b.cap
    case Expand(c) => Max(b.cap, c)
    case Shrink(c, _) => Min(b.cap, c)
    case _ => b.cap
  }

  function TailAfter<T>(b: Buffer<T>, op: Op<T>): nat
    requires Fits(b)
  {
    match op
    case PushBack(_) => Dec(b.tail, CapAfter(b, op))
    case PopBack => if b.elements == [] then b.tail else Inc(b.tail, b.cap)
    case Shrink(c, _) => if b.cap <= c || b.tail + |b.elements| < c then b.tail else 0
    case _ => b.tail
  }

  /** One operation, and what it answers; None when it is passed over. */
  function Step<T>(b: Buffer<T>, op: Op<T>): (r: (Buffer<T>, Option<Answer<T>>))
    requires Fits(b)
    ensures Fits(r.0)
  {
    if PassesOver(b, op) then (b, None)
    else
      var (elements, taken) := Plain(b.elements, op);
      (Buffer(elements, CapAfter(b, op), TailAfter(b, op)), Some(Answer(CodeOf(b, op), taken)))
  }

  function Run<T>(b: Buffer<T>, ops: seq<Op<T>>): (r: (Buffer<T>, seq<Option<Answer<T>>>))
    requires Fits(b)
    ensures Fits(r.0) && |r.1| == |ops|
  {
    if ops == [] then (b, [])
    else
      var (before, answers) := Run(b, ops[..|ops| - 1]);
      var (after, answer) := Step(before, ops[|ops| - 1]);
      (after, answers + [answer])
  }

  ghost function StateOf<T(0)>(rb: RingBuffer<T>): (b: Buffer<T>)
    requires rb.Valid()
    reads rb, rb.arr
    ensures Fits(b)
  {
    Buffer(rb.Contents(), rb.cap, rb.tail)
  }

  /** A push, an insertion or an expansion. */
  method Add<T(0, ==)>(rb: RingBuffer<T>, op: Op<T>) returns (code: CResult)
    requires rb.Valid() && (op.PushFront? || op.PushBack? || op.InsertAt? || op.Expand?)
    modifies rb, rb.arr
    ensures rb.Valid() && (rb.arr == old(rb.arr) || fresh(rb.arr))
    ensures (StateOf(rb), Some(Answer(code, []))) == Step(old(StateOf(rb)), op)
  {
    match op
    case PushFront(e) => code := rb.PushFront(e);
    case PushBack(e) => code := rb.PushBack(e);
    case InsertAt(i, e) => code := rb.Insert(i, e);
    case Expand(c) => code := rb.Expand(c);
  }

  /** A pop or a removal. */
  method Take<T(0, ==)>(rb: RingBuffer<T>, op: Op<T>) returns (code: CResult, taken: seq<T>)
    requires rb.Valid() && (op.PopFront? || op.PopBack? || op.RemoveAt?)
    modifies rb, rb.arr
    ensures rb.Valid() && rb.arr == old(rb.arr)
    ensures (StateOf(rb), Some(Answer(code, taken))) == Step(old(StateOf(rb)), op)
  {
    ghost var was := rb.Contents();
    var e: Option<T>;
    match op {
      case PopFront =>
        code, e := rb.PopFront();
        assert e.Some? ==> was[..|was| - 1] == rb.Contents();
      case PopBack =>
        code, e := rb.PopBack();
        assert e.Some? ==> was[1..] == rb.Contents();
      case RemoveAt(i) => code, e := rb.Remove(i);
    }
    taken := if e.Some? then [e.value] else [];
  }

  /** A shrink that does as documented, into a vector of its own if there is to be one. */
  method Cut<T(0, ==)>(rb: RingBuffer<T>, cap: nat, hasDst: bool) returns (code: CResult, taken: seq<T>)
    requires rb.Valid() && !PassesOver(StateOf(rb), Shrink(cap, hasDst))
    modifies rb, rb.arr
    ensures rb.Valid() && (rb.arr == old(rb.arr) || fresh(rb.arr))
    ensures (StateOf(rb), Some(Answer(code, taken))) == Step(old(StateOf(rb)), Shrink(cap, hasDst))
  {
    ghost var was := rb.Contents();
    assert was[..|was|] == was && was[|was|..] == [];
    var dst: Vec?<T> := null;
    if hasDst {
      dst := new Vec<T>.WithCapacity(0);
    }
    var o := rb.Shrink(cap, dst);
    code := o.code;
    taken := if dst == null then [] else dst.arr[..dst.size];
  }

  method Perform<T(0, ==)>(rb: RingBuffer<T>, op: Op<T>) returns (answer: Option<Answer<T>>)
    requires rb.Valid()
    modifies rb, rb.arr
    ensures rb.Valid() && (rb.arr == old(rb.arr) || fresh(rb.arr))
    ensures (StateOf(rb), answer) == Step(old(StateOf(rb)), op)
  {
    var code, taken := Ok, [];
    if op.Shrink? {
      var skip := op.cap <= rb.cap && !rb.ShrinksAsDocumented(op.cap, op.hasDst);
      if skip {
        return None;
      }
      code, taken := Cut(rb, op.cap, op.hasDst);
    } else if op.PopFront? || op.PopBack? || op.RemoveAt? {
      code, taken := Take(rb, op);
    } else {
      code := Add(rb, op);
    }
    return Some(Answer(code, taken));
  }

  /** Any run of operations on the buffer is the run on the plain sequence: contents, capacity,
      start of the elements, result codes, elements handed out, and which shrinks do not do as
      documented. */
  method PerformAll<T(0, ==)>(rb: RingBuffer<T>, ops: seq<Op<T>>) returns (answers: seq<Option<Answer<T>>>)
    requires rb.Valid()
    modifies rb, rb.arr
    ensures rb.Valid()
    ensures (StateOf(rb), answers) == Run(old(StateOf(rb)), ops)
  {
    answers := [];
    for i := 0 to |ops|
      invariant rb.Valid() && (rb.arr == old(rb.arr) || fresh(rb.arr))
      invariant (StateOf(rb), answers) == Run(old(StateOf(rb)), ops[..i])
    {
      assert ops[..i + 1][..i] == ops[..i];
      var answer := Perform(rb, ops[i]);
      answers := answers + [answer];
    }
    assert ops[..|ops|] == ops;
  }

  /** The largest number of elements held at any point of the run. */
  function PeakSize<T>(b: Buffer<T>, ops: seq<Op<T>>): nat
    requires Fits(b)
  {
    if ops == [] then |b.elements|
    else Max(PeakSize(b, ops[..|ops| - 1]), |Run(b, ops).0.elements|)
  }

  /** The largest capacity asked for by name. */
  function LargestRequest<T>(ops: seq<Op<T>>): nat {
    if ops == [] then 0
    else
      var rest := LargestRequest(ops[..|ops| - 1]);
      if ops[|ops| - 1].Expand? then Max(rest, ops[|ops| - 1].cap) else rest
  }

  lemma StepIsBounded<T>(b: Buffer<T>, op: Op<T>)
    requires Fits(b)
    ensures var after := Step(b, op).0;
            after.cap <= b.cap || (op.Expand? && after.cap == op.cap) || after.cap < |after.elements| + EXPAND_DELTA
  {
  }

  lemma BoundsGrow<T>(b: Buffer<T>, ops: seq<Op<T>>)
    requires Fits(b) && ops != []
    ensures PeakSize(b, ops[..|ops| - 1]) <= PeakSize(b, ops) && |Run(b, ops).0.elements| <= PeakSize(b, ops)
    ensures LargestRequest(ops[..|ops| - 1]) <= LargestRequest(ops)
    ensures ops[|ops| - 1].Expand? ==> ops[|ops| - 1].cap <= LargestRequest(ops)
  {
  }

  lemma RunOneMore<T>(b: Buffer<T>, ops: seq<Op<T>>)
    requires Fits(b) && ops != []
    ensures var (before, answers) := Run(b, ops[..|ops| - 1]);
            var (after, answer) := Step(before, ops[|ops| - 1]);
            Run(b, ops) == (after, answers + [answer])
  {
  }

  /** The capacity exceeds its start and every explicit request only by staying within 15 of the
      peak number of elements. */
  lemma {:induction false} CapacityIsBounded<T>(b: Buffer<T>, ops: seq<Op<T>>, bound: nat)
    requires Fits(b) && b.cap <= bound && LargestRequest(ops) <= bound && PeakSize(b, ops) + 15 <= bound
    ensures Run(b, ops).0.cap <= bound
  {
    if ops != [] {
      BoundsGrow(b, ops);
      CapacityIsBounded(b, ops[..|ops| - 1], bound);
      StepIsBounded(Run(b, ops[..|ops| - 1]).0, ops[|ops| - 1]);
      RunOneMore(b, ops);
    }
  }

  /** What was pushed at the front, and what was handed out, in order. */
  function Pushed<T>(ops: seq<Op<T>>): seq<T> {
    if ops == [] then []
    else
      var last := ops[|ops| - 1];
      Pushed(ops[..|ops| - 1]) + if last.PushFront? then [last.e] else []
  }

  function HandedOut<T>(answers: seq<Option<Answer<T>>>): seq<T> {
    if answers == [] then []
    else
      var last := answers[|answers| - 1];
      HandedOut(answers[..|answers| - 1]) + if last.Some? then last.value.taken else []
  }

  /** Used as the transmit queue is, it is first in, first out: what came out of it and then what
      is in it are what was in it and then what went in. */
  lemma {:induction false} FirstInFirstOut<T>(b: Buffer<T>, ops: seq<Op<T>>)
    requires Fits(b) && forall k | 0 <= k < |ops| :: ops[k].PushFront? || ops[k].PopBack?
    ensures var (after, answers) := Run(b, ops);
            HandedOut(answers) + after.elements == b.elements + Pushed(ops)
  {
    if ops != [] {
      var n := |ops| - 1;
      FirstInFirstOut(b, ops[..n]);
      RunOneMore(b, ops);
      var (before, answers) := Run(b, ops[..n]);
      var (after, answer) := Step(before, ops[n]);
      assert (answers + [answer])[..n] == answers;
      if ops[n].PushFront? {
        Associative(HandedOut(answers), before.elements, [ops[n].e]);
        Associative(b.elements, Pushed(ops[..n]), [ops[n].e]);
        assert HandedOut(answers) + [] == HandedOut(answers);
      } else if before.elements != [] {
        assert before.elements == [before.elements[0]] + before.elements[1..];
        Associative(HandedOut(answers), [before.elements[0]], before.elements[1..]);
      }
    }
  }

  /** At either end, and at any index, what went in last comes out first, and nothing else has
      changed. */
  lemma LastInFirstOut<T>(b: Buffer<T>, e: T, i: nat)
    requires Fits(b) && i <= |b.elements|
    ensures var (after, answer) := Step(Step(b, PushFront(e)).0, PopFront);
            after.elements == b.elements && answer == Some(Answer(Ok, [e]))
    ensures var (after, answer) := Step(Step(b, PushBack(e)).0, PopBack);
            after.elements == b.elements && answer == Some(Answer(Ok, [e]))
    ensures var (after, answer) := Step(Step(b, InsertAt(i, e)).0, RemoveAt(i));
            after.elements == b.elements && answer == Some(Answer(Ok, [e]))
  {
    RemovedAfterInserted(b.elements, i, e);
  }

  /** A shrink into a vector that is not passed over loses nothing; an expansion changes nothing
      but the capacity. */
  lemma ResizingKeeps<T>(b: Buffer<T>, cap: nat)
    requires Fits(b)
    ensures var (after, answer) := Step(b, Shrink(cap, true));
            answer.Some? ==> after.elements + answer.value.taken == b.elements && after.cap <= b.cap
    ensures var (after, answer) := Step(b, Expand(cap));
            answer.Some? && after == b.(cap := after.cap) && after.cap == Max(b.cap, cap) && answer.value.taken == []
  {
    assert b.elements + [] == b.elements;
  }

  /** Without shrinks, capacity and layout never show: buffers that hold the same elements
      answer the same and go on holding the same. */
  lemma {:induction false} LayoutDoesNotShow<T>(b: Buffer<T>, b': Buffer<T>, ops: seq<Op<T>>)
    requires Fits(b) && Fits(b') && b.elements == b'.elements
    requires forall op | op in ops :: !op.Shrink?
    ensures Run(b, ops).0.elements == Run(b', ops).0.elements
    ensures forall i | 0 <= i < |ops| && !ops[i].Expand? :: Run(b, ops).1[i] == Run(b', ops).1[i]
  {
    if ops != [] {
      LayoutDoesNotShow(b, b', ops[..|ops| - 1]);
    }
  }

  /** n pushes into an empty buffer of capacity c enlarge it exactly ceil(max(0, n - c) / 16)
      times. */
  method PushAll<T(0, ==)>(rb: RingBuffer<T>, es: seq<T>) returns (expansions: nat)
    requires rb.Valid() && rb.size == 0
    modifies rb, rb.arr
    ensures rb.Valid() && rb.Contents() == es
    ensures expansions == if |es| <= old(rb.cap) then 0 else (|es| - old(rb.cap) + 15) / 16
    ensures rb.cap == old(rb.cap) + 16 * expansions
    ensures rb.tail == old(rb.tail) && (rb.arr == old(rb.arr) || fresh(rb.arr))
  {
    expansions := 0;
    for i := 0 to |es|
      invariant rb.Valid() && (rb.arr == old(rb.arr) || fresh(rb.arr))
      invariant rb.Contents() == es[..i] && rb.tail == old(rb.tail)
      invariant rb.cap == old(rb.cap) + EXPAND_DELTA * expansions
      invariant expansions > 0 ==> rb.cap < i + EXPAND_DELTA
    {
      var before := rb.cap;
      var _ := rb.PushFront(es[i]);
      if rb.cap != before {
        expansions := expansions + 1;
      }
    }
  }

  /** Removing what was just inserted restores the contents, also when the insertion grew the
      buffer. */
  method InsertThenRemove<T(0, ==)>(rb: RingBuffer<T>, index: nat, e: T) returns (out: Option<T>)
    requires rb.Valid() && index <= rb.size
    modifies rb, rb.arr
    ensures rb.Valid() && rb.Contents() == old(rb.Contents())
    ensures out == Some(e)
  {
    RemovedAfterInserted(rb.Contents(), index, e);
    var _ := rb.Insert(index, e);
    var _, o := rb.Remove(index);
    out := o;
  }

  /** Every layout comes about by pushing and popping: `tail` pushes and pops move an empty
      buffer along, and the elements follow. */
  method Reach<T(0, ==)>(cap: nat, tail: nat, elements: seq<T>, any: T) returns (rb: RingBuffer<T>)
    requires tail < cap && |elements| <= cap
    ensures fresh(rb) && fresh(rb.arr) && rb.Valid()
    ensures StateOf(rb) == Buffer(elements, cap, tail)
  {
    var _, made := RingBuffer<T>.WithCapacity(cap);
    rb := made;
    for i := 0 to tail
      invariant fresh(rb) && fresh(rb.arr) && rb.Valid()
      invariant StateOf(rb) == Buffer([], cap, i)
    {
      var _ := rb.PushFront(any);
      var _, _ := rb.PopBack();
    }
    var _ := PushAll(rb, elements);
  }

  // What `shrink` does on the layouts where it does not do as documented. Each comes about.

  /** The elements end exactly at the new capacity: `head` is left one past the block. */
  method ShrinkLeavesHeadOutside<T(0, ==)>(rb: RingBuffer<T>, newCap: nat) returns (o: Outcome)
    requires rb.Valid() && 0 < newCap < rb.cap && rb.tail + rb.size == newCap
    modifies rb, rb.arr
    ensures o == Returned(Ok) && rb.head == rb.cap == newCap && !rb.Valid()
  {
    o := rb.Shrink(newCap, null);
  }

  /** Fewer elements than the new capacity, some behind it, and fewer than newCap cells from the
      first one to the end of the block: the copy loop reads past that. */
  method ShrinkReadsOutside<T(0, ==)>(rb: RingBuffer<T>, newCap: nat) returns (o: Outcome)
    requires rb.Valid() && newCap < rb.cap && 0 < rb.size < newCap
    requires rb.tail + rb.size > newCap && rb.tail + newCap > rb.cap
    modifies rb, rb.arr
    ensures o == Fault
  {
    o := rb.Shrink(newCap, null);
  }

  /** Shrinking to nothing drops the elements the destination should receive. */
  method ShrinkToNothingDrops<T(0, ==)>(rb: RingBuffer<T>, dst: Vec<T>) returns (o: Outcome)
    requires rb.Valid() && rb.size > 0
    modifies rb, rb.arr, dst
    ensures o == Returned(Ok) && rb.Valid() && rb.Contents() == []
    ensures dst.Valid() && dst.Contents() == [] != old(rb.Contents())
  {
    o := rb.Shrink(0, dst);
  }
}
