/** The growable ring buffer of chatd/collections/ringbuffer.c. */
module Ring {
  import opened Collections
  import opened Vectors

  /** `ringbuffer_dec` and `ringbuffer_inc`. */
  function Dec(val: nat, cap: nat): nat
    requires val < cap
  {
    if val == 0 then cap - 1 else val - 1
  }

  function Inc(val: nat, cap: nat): nat
    requires val < cap
  {
    if val == cap - 1 then 0 else val + 1
  }

  /** The cell `i` places after `tail`, going round the end of the array once. */
  function Slot(tail: nat, i: nat, cap: nat): nat
    requires tail < cap && i <= cap
  {
    if tail + i < cap then tail + i else tail + i - cap
  }

  /** The source reaches a cell by `%`, by `inc` from the one before or by `dec` from the one
      after: it is the same cell. */
  lemma SlotIsModulo(tail: nat, i: nat, cap: nat)
    requires tail < cap && i <= cap
    ensures Slot(tail, i, cap) == (tail + i) % cap
    ensures i > 0 ==> Slot(tail, i, cap) == Inc(Slot(tail, i - 1, cap), cap)
    ensures i < cap ==> Slot(tail, i, cap) == Dec(Slot(tail, i + 1, cap), cap)
  {
    var slot := Slot(tail, i, cap);
    var turns := if tail + i < cap then 0 else 1;
    QuotientAndRemainder(tail + i, turns, slot, cap);
  }

  lemma QuotientAndRemainder(x: nat, q: nat, r: nat, cap: nat)
    requires x == q * cap + r && r < cap && q <= 1
    ensures x % cap == r
  {
    if q == 1 {
      assert x / cap == 1;
    }
  }

  /** The elements held by the `size` cells from `tail` on, in logical order. */
  function Logical<T>(a: seq<T>, tail: nat, size: nat): (s: seq<T>)
    requires size <= |a| && (size > 0 ==> tail < |a|)
    ensures |s| == size
  {
    seq(size, i requires 0 <= i < size => a[Slot(tail, i, |a|)])
  }

  lemma LogicalUpdate<T>(a: seq<T>, tail: nat, n: nat, j: nat, e: T)
    requires j < n <= |a| && tail < |a|
    ensures Logical(a[Slot(tail, j, |a|) := e], tail, n) == Logical(a, tail, n)[j := e]
  {
    assert forall i | 0 <= i < n && i != j :: Slot(tail, i, |a|) != Slot(tail, j, |a|);
  }

  lemma LogicalPrefix<T>(a: seq<T>, tail: nat, n: nat)
    requires n < |a| && tail < |a|
    ensures Logical(a, tail, n + 1)[..n] == Logical(a, tail, n)
  {
  }

  lemma LogicalFromBehind<T>(a: seq<T>, tail: nat, n: nat)
    requires n < |a| && tail < |a|
    ensures Logical(a, Dec(tail, |a|), n + 1)[1..] == Logical(a, tail, n)
  {
    var before := Dec(tail, |a|);
    assert forall j | 0 <= j < n :: Slot(before, j + 1, |a|) == Slot(tail, j, |a|);
  }

  /** `now` is `was` with the elements from i on moved up by one; a copy of the i-th is still at
      i, to be overwritten. */
  ghost predicate IsOpened<T>(was: seq<T>, now: seq<T>, i: nat) {
    && |now| == |was| > i
    && (forall k | 0 <= k < i :: now[k] == was[k])
    && (forall k | i < k < |was| :: now[k] == was[k - 1])
    && now[i] == was[i]
  }

  lemma JoinedSlices<T>(a: seq<T>, n: nat, m: nat)
    requires n + m <= |a|
    ensures a[..n] + a[n..n + m] == a[..n + m]
  {
  }

  lemma OpenedThenStored<T>(was: seq<T>, gapped: seq<T>, i: nat, e: T)
    requires IsOpened(was, gapped, i)
    ensures gapped[i := e] == Inserted(was[..|was| - 1], i, e)
  {
  }

  /** The source gives a result code, or it indexes past the block it owns. */
  datatype Outcome = Returned(code: CResult) | Fault

  /** The overlapping copy loops of `expand` and `shrink`:
      arr[i] = arr[i + offset] for i in 0..n, front to back. */
  method ShiftLeft<T>(a: array<T>, offset: nat, n: nat)
    requires offset + n <= a.Length
    modifies a
    ensures a[..n] == old(a[offset..offset + n])
    ensures a[n..] == old(a[n..])
  {
    for i := 0 to n
      invariant a[..i] == old(a[offset..offset + i])
      invariant a[i..] == old(a[i..])
    {
      a[i] := a[i + offset];
    }
  }

  /** arr[to + i] = arr[from + i] for i in 0..n, into cells that are not read. */
  method CopyApart<T>(a: array<T>, src: array<T>, from: nat, to: nat, n: nat)
    requires from + n <= src.Length && to + n <= a.Length
    requires a == src ==> from + n <= to
    modifies a
    ensures a[..to] == old(a[..to])
    ensures a[to..to + n] == old(src[from..from + n])
    ensures a[to + n..] == old(a[to + n..])
  {
    for i := 0 to n
      invariant a[..to] == old(a[..to])
      invariant a[to..to + i] == old(src[from..from + i])
      invariant a[to + i..] == old(a[to + i..])
      invariant a != src ==> src[..] == old(src[..])
    {
      assert src[from + i] == old(src[from..from + n])[i];
      a[to + i] := src[from + i];
    }
  }

  /** `expand` when the wrapped part fills the new space: it is copied there as far as it
      goes (`copied`), and what is left of it slides down to cell 0 (`now`). */
  lemma MovedInTwoParts<T>(was: seq<T>, copied: seq<T>, now: seq<T>, cap: nat, tail: nat, size: nat)
    requires 0 < size <= cap < |was| == |copied| == |now|
    requires tail < cap && var head := Slot(tail, size, cap); |was| - cap <= head <= tail
    requires copied[..cap] == was[..cap] && copied[cap..] == was[..|was| - cap]
    requires var shift, head := |was| - cap, Slot(tail, size, cap);
             now[..head - shift] == copied[shift..head] && now[head - shift..] == copied[head - shift..]
    ensures Logical(now, tail, size) == Logical(was[..cap], tail, size)
  {
    var shift, head := |was| - cap, Slot(tail, size, cap);
    forall i | 0 <= i < size
      ensures now[Slot(tail, i, |was|)] == was[Slot(tail, i, cap)]
    {
      if tail + i < |was| {
        var k := tail + i;
        assert now[k] == now[head - shift..][k - (head - shift)] == copied[k];
        if k < cap {
          assert copied[k] == copied[..cap][k] == was[k];
        } else {
          assert copied[k] == copied[cap..][k - cap] == was[k - cap];
        }
      } else {
        var k := tail + i - |was|;
        assert now[k] == now[..head - shift][k] == copied[shift + k];
        assert copied[shift + k] == copied[..cap][shift + k] == was[shift + k];
      }
    }
  }

  /** `expand` when the wrapped part fits into the new space. */
  lemma MovedAtOnce<T>(was: seq<T>, now: seq<T>, cap: nat, tail: nat, size: nat)
    requires 0 < size <= cap < |was| == |now|
    requires tail < cap && var head := Slot(tail, size, cap); head <= tail && head < |was| - cap
    requires now[..cap] == was[..cap]
    requires var head := Slot(tail, size, cap); now[cap..cap + head] == was[..head]
    ensures Logical(now, tail, size) == Logical(was[..cap], tail, size)
  {
    var head := Slot(tail, size, cap);
    forall i | 0 <= i < size
      ensures now[Slot(tail, i, |was|)] == was[Slot(tail, i, cap)]
    {
      var k := tail + i;
      if k < cap {
        assert now[k] == now[..cap][k] == was[k];
      } else {
        assert now[k] == now[cap..cap + head][k - cap] == was[k - cap];
      }
    }
  }

  /** The layouts on which shrinking to newCap <= cap does what its documentation says.
      The excluded ones are
      - newCap == 0 with a destination and something to put there (it stays empty);
      - tail + size == newCap (`head`, and `tail` if the buffer is empty, end up on cell newCap,
        one past the new block);
      - a non-empty buffer with size < newCap whose cells reach beyond newCap, when newCap cells
        from `tail` on do not fit the old block (the copy loop reads past its end). */
  predicate IsFaithful(cap: nat, tail: nat, size: nat, newCap: nat, hasDst: bool) {
    || newCap == cap
    || (newCap == 0 && (hasDst ==> size == 0))
    || (0 < newCap
        && (tail + size < newCap
            || (tail + size > newCap && !IsPastEnd(cap, tail, size, newCap))))
  }

  predicate IsPastEnd(cap: nat, tail: nat, size: nat, newCap: nat) {
    0 < newCap < cap && newCap < tail + size && 0 < size < newCap && cap < tail + newCap
  }

  /** `struct ringbuffer`; a NULL `arr` is the array of length 0. */
  class RingBuffer<T(0, ==)> {
    var cap: nat
    var head: nat
    var tail: nat
    var size: nat
    var arr: array<T>

    ghost predicate Valid()
      reads this
    {
      && arr.Length == cap
      && size <= cap
      && (cap == 0 ==> head == tail == 0)
      && (cap > 0 ==> tail < cap && head == Slot(tail, size, cap))
    }

    /** The logical sequence; `head` plays no part in it. */
    ghost function Contents(): seq<T>
      requires arr.Length == cap && size <= cap && (cap > 0 ==> tail < cap)
      reads this, arr
    {
      Logical(arr[..], tail, size)
    }

    constructor Make(arr: array<T>, size: nat, head: nat)
      ensures this.arr == arr && cap == arr.Length && tail == 0
      ensures this.size == size && this.head == head
    {
      this.arr, this.cap, this.tail := arr, arr.Length, 0;
      this.size, this.head := size, head;
    }

    /** A capacity of 0 is refused: the source takes its NULL block for a failed malloc. */
    static method WithCapacity(cap: nat) returns (r: CResult, rb: RingBuffer?<T>)
      ensures r == if cap == 0 then NoMem else Ok
      ensures r == NoMem <==> rb == null
      ensures rb != null ==> fresh(rb) && fresh(rb.arr)
      ensures rb != null ==> rb.Valid() && rb.cap == cap && rb.tail == 0 && rb.Contents() == []
    {
      if cap == 0 {
        return NoMem, null;
      }
      var arr := new T[cap];
      rb := new RingBuffer.Make(arr, 0, 0);
      return Ok, rb;
    }

    /** Takes over the block of a vector, which keeps pointing to it. */
    static method FromVec(src: Vec<T>) returns (rb: RingBuffer<T>)
      requires src.Valid()
      ensures fresh(rb) && rb.arr == src.arr
      ensures rb.Valid() && rb.cap == src.cap && rb.Contents() == src.Contents()
    {
      rb := new RingBuffer.Make(src.arr, src.size, if src.cap == src.size then 0 else src.size);
    }

    /** The index is taken modulo the capacity, so it need not be below `size`. */
    method Get(index: nat) returns (e: T)
      requires Valid() && cap > 0
      ensures e == arr[(tail + index) % cap]
      ensures index < size ==> e == Contents()[index]
    {
      e := arr[(tail + index) % cap];
      if index < size {
        SlotIsModulo(tail, index, cap);
      }
    }

    /** RINGBUFFER_ITER_BEGIN: what the loop body sees, in order. */
    method Iterate() returns (seen: seq<(nat, T)>)
      requires Valid()
      ensures |seen| == size && forall i | 0 <= i < size :: seen[i] == (i, Contents()[i])
    {
      seen := [];
      var cursor := tail;
      for i := 0 to size
        invariant cap > 0 ==> cursor == Slot(tail, i, cap)
        invariant |seen| == i && forall k | 0 <= k < i :: seen[k] == (k, Contents()[k])
      {
        seen := seen + [(i, arr[cursor])];
        cursor := Inc(cursor, cap);
      }
    }

    /** RINGBUFFER_ITERREV_BEGIN. */
    method IterateReverse() returns (seen: seq<(nat, T)>)
      requires Valid()
      ensures |seen| == size
      ensures forall k | 0 <= k < size :: seen[k] == (size - 1 - k, Contents()[size - 1 - k])
    {
      seen := [];
      var cursor := head;
      var i := size;
      while i > 0
        invariant 0 <= i <= size
        invariant cap > 0 ==> cursor == Slot(tail, i, cap)
        invariant |seen| == size - i
        invariant forall k | 0 <= k < size - i :: seen[k] == (size - 1 - k, Contents()[size - 1 - k])
      {
        i := i - 1;
        cursor := Dec(cursor, cap);
        seen := seen + [(i, arr[cursor])];
      }
    }

    // ------------------------------------------------------------- expand

    /** The else-branch of `expand`, run once `arr` has its new length and before `cap` has:
        the elements at the front of the old block move into the new space. */
    method MovePrefix()
      requires 0 < size <= cap < arr.Length && tail < cap && head == Slot(tail, size, cap) <= tail
      modifies this`head, arr
      ensures head == Slot(tail, size, arr.Length)
      ensures Logical(arr[..], tail, size) == Logical(old(arr[..cap]), tail, size)
    {
      if head >= arr.Length - cap {
        MoveInTwoParts();
      } else {
        ghost var was := arr[..];
        CopyApart(arr, arr, 0, cap, head);
        MovedAtOnce(was, arr[..], cap, tail, size);
        SlotIsModulo(tail, size, arr.Length);
        head := (tail + size) % arr.Length;
      }
    }

    /** Lines 174-181 of the source. */
    method MoveInTwoParts()
      requires 0 < size <= cap < arr.Length && tail < cap && head == Slot(tail, size, cap) <= tail
      requires head >= arr.Length - cap
      modifies this`head, arr
      ensures head == Slot(tail, size, arr.Length)
      ensures Logical(arr[..], tail, size) == Logical(old(arr[..cap]), tail, size)
    {
      var shift := arr.Length - cap;
      ghost var was := arr[..];
      CopyApart(arr, arr, 0, cap, shift);
      ghost var copied := arr[..];
      ShiftLeft(arr, shift, head - shift);
      MovedInTwoParts(was, copied, arr[..], cap, tail, size);
      head := head - shift;
    }

    method Expand(newCap: nat) returns (r: CResult)
      requires Valid()
      modifies this, arr
      ensures Valid() && (arr == old(arr) || fresh(arr))
      ensures Contents() == old(Contents())
      ensures r == if old(cap) > newCap then CapGreater else Ok
      ensures cap == Max(old(cap), newCap) && tail == old(tail)
    {
      if cap > newCap {
        return CapGreater;
      } else if cap == newCap {
        return Ok;
      }
      ghost var was := arr[..];
      arr := Realloc(arr, newCap);
      assert arr[..cap] == was;
      if size == 0 || head > tail {
        assert forall k | tail <= k < tail + size :: arr[k] == arr[..cap][k];
        cap := newCap;
      } else {
        MovePrefix();
        cap := newCap;
      }
      return Ok;
    }

    // ------------------------------------------------- insert and remove

    /** One store into the array, seen on the logical side. */
    method Store(ghost j: nat, ghost n: nat, cell: nat, e: T)
      requires arr.Length == cap && tail < cap && j < n <= cap && cell == Slot(tail, j, cap)
      modifies arr
      ensures Logical(arr[..], tail, n) == old(Logical(arr[..], tail, n))[j := e]
    {
      LogicalUpdate(arr[..], tail, n, j, e);
      arr[cell] := e;
      assert arr[..] == old(arr[..])[cell := e];
    }

    /** The loop of `insert`: positions index..size move up by one, the last into the free
        cell at `head`. */
    method OpenGap(index: nat) returns (cursor: nat)
      requires Valid() && index <= size < cap
      modifies arr
      ensures cursor == Slot(tail, index, cap)
      ensures IsOpened(old(Logical(arr[..], tail, size + 1)), Logical(arr[..], tail, size + 1), index)
    {
      cursor := head;
      ghost var was := Logical(arr[..], tail, size + 1);
      ghost var now := was;
      var i := size;
      while i > index
        invariant index <= i <= size
        invariant cursor == Slot(tail, i, cap)
        invariant now == Logical(arr[..], tail, size + 1)
        invariant IsOpened(was, now, i)
      {
        var prev := Dec(cursor, cap);
        assert arr[prev] == now[i - 1];
        Store(i, size + 1, cursor, arr[prev]);
        now := now[i := now[i - 1]];
        cursor := prev;
        i := i - 1;
      }
    }

    method Insert(index: nat, e: T) returns (r: CResult)
      requires Valid()
      modifies this, arr
      ensures Valid() && (arr == old(arr) || fresh(arr))
      ensures r == if index > old(size) then OutOfBounds else Ok
      ensures index > old(size) ==> Contents() == old(Contents()) && cap == old(cap)
      ensures index <= old(size) ==> Contents() == Inserted(old(Contents()), index, e)
      ensures index <= old(size) ==> cap == old(CapForOneMore())
      ensures tail == old(tail)
    {
      if index > size {
        return OutOfBounds;
      }
      if size == cap {
        var _ := Expand(cap + EXPAND_DELTA);
      }
      InsertInPlace(index, e);
      return Ok;
    }

    /** Lines 207-217 of the source. */
    method InsertInPlace(index: nat, e: T)
      requires Valid() && index <= size < cap
      modifies this`head, this`size, arr
      ensures Valid() && Contents() == Inserted(old(Contents()), index, e)
    {
      ghost var was := Logical(arr[..], tail, size + 1);
      LogicalPrefix(arr[..], tail, size);
      var cursor := OpenGap(index);
      ghost var gapped := Logical(arr[..], tail, size + 1);
      Store(index, size + 1, cursor, e);
      OpenedThenStored(was, gapped, index, e);
      head := Inc(head, cap);
      size := size + 1;
    }

    /** The loop of `remove`. Its last round copies the cell at `head` into position size - 1;
        when the buffer is full that cell is position 0 again. */
    method CloseGap(index: nat)
      requires Valid() && index < size
      modifies arr
      ensures Contents()[..index] == old(Contents())[..index]
      ensures Contents()[index..size - 1] == old(Contents())[index + 1..]
    {
      var cursor := Slot(tail, index, cap);
      for i := index to size
        invariant cursor == Slot(tail, i, cap)
        invariant Contents()[..index] == old(Contents())[..index]
        invariant forall j | index <= j < i && j < size - 1 :: Contents()[j] == old(Contents())[j + 1]
        invariant Contents()[i..] == old(Contents())[i..]
      {
        var next := Inc(cursor, cap);
        assert i + 1 < size ==> arr[next] == Contents()[i..][1] == old(Contents())[i..][1];
        Store(i, size, cursor, arr[next]);
        cursor := next;
      }
    }

    method Remove(index: nat) returns (r: CResult, removed: Option<T>)
      requires Valid()
      modifies this`head, this`size, arr
      ensures Valid()
      ensures index >= old(size) ==>
        r == OutOfBounds && removed == None && Contents() == old(Contents())
      ensures index < old(size) ==>
        r == Ok && removed == Some(old(Contents())[index])
      ensures index < old(size) ==> Contents() == Collections.Removed(old(Contents()), index)
    {
      if index >= size {
        return OutOfBounds, None;
      }
      SlotIsModulo(tail, index, cap);
      removed := Some(arr[(tail + index) % cap]);
      CloseGap(index);
      ghost var closed := Contents();
      head := Dec(head, cap);
      size := size - 1;
      assert Contents() == closed[..size] == closed[..index] + closed[index..size];
      return Ok, removed;
    }

    // ------------------------------------------------------ the four ends

    /** Capacity after making room for one more element. */
    ghost function CapForOneMore(): nat
      reads this
    {
      if size == cap then cap + EXPAND_DELTA else cap
    }

    /** Adds at `head`, the end of the logical sequence. */
    method PushFront(e: T) returns (r: CResult)
      requires Valid()
      modifies this, arr
      ensures Valid() && (arr == old(arr) || fresh(arr))
      ensures r == Ok && Contents() == old(Contents()) + [e]
      ensures cap == old(CapForOneMore()) && tail == old(tail)
    {
      if size == cap {
        var _ := Expand(cap + EXPAND_DELTA);
      }
      LogicalPrefix(arr[..], tail, size);
      Store(size, size + 1, head, e);
      head := Inc(head, cap);
      size := size + 1;
      return Ok;
    }

    /** Takes from `head`. */
    method PopFront() returns (r: CResult, popped: Option<T>)
      requires Valid()
      modifies this`head, this`size
      ensures Valid()
      ensures old(Contents()) == [] ==> r == Empty && popped == None && Contents() == []
      ensures old(Contents()) != [] ==>
        r == Ok && popped.Some? && old(Contents()) == Contents() + [popped.value]
    {
      if size == 0 {
        return Empty, None;
      }
      head := Dec(head, cap);
      popped := Some(arr[head]);
      size := size - 1;
      return Ok, popped;
    }

    /** Adds at `tail`, the start of the logical sequence. */
    method PushBack(e: T) returns (r: CResult)
      requires Valid()
      modifies this, arr
      ensures Valid() && (arr == old(arr) || fresh(arr))
      ensures r == Ok && Contents() == [e] + old(Contents())
      ensures cap == old(CapForOneMore())
      ensures tail == Dec(old(tail), cap)
    {
      if size == cap {
        var _ := Expand(cap + EXPAND_DELTA);
      }
      LogicalFromBehind(arr[..], tail, size);
      tail := Dec(tail, cap);
      Store(0, size + 1, tail, e);
      size := size + 1;
      return Ok;
    }

    /** Takes from `tail`. */
    method PopBack() returns (r: CResult, popped: Option<T>)
      requires Valid()
      modifies this`tail, this`size
      ensures Valid()
      ensures old(Contents()) == [] ==> r == Empty && popped == None && Contents() == []
      ensures old(Contents()) != [] ==>
        r == Ok && popped.Some? && old(Contents()) == [popped.value] + Contents()
      ensures old(Contents()) != [] ==> tail == Inc(old(tail), cap)
    {
      if size == 0 {
        return Empty, None;
      }
      popped := Some(arr[tail]);
      ghost var oldTail := tail;
      tail := Inc(tail, cap);
      size := size - 1;
      assert forall j | 0 <= j <= size :: Slot(tail, j, cap) == Slot(oldTail, j + 1, cap);
      return Ok, popped;
    }

    // ------------------------------------------------------------- shrink

    /** When shrinking to newCap <= cap does what its documentation says: exactly then. */
    predicate ShrinksAsDocumented(newCap: nat, hasDst: bool)
      reads this
    {
      IsFaithful(cap, tail, size, newCap, hasDst)
    }

    predicate ReadsPastEnd(newCap: nat)
      reads this
    {
      IsPastEnd(cap, tail, size, newCap)
    }

    /** Lines 93-108 of the source: `head` steps back to position newCap, handing what it
        passes to dst. */
    method TrimInto(newCap: nat, dst: Vec?<T>)
      requires Valid() && 0 < newCap <= size && newCap < cap
      modifies this`head
      modifies if dst == null then {} else {dst}
      ensures head == Slot(tail, newCap, cap)
      ensures dst != null ==> dst.Valid() && fresh(dst.arr) && dst.Contents() == Contents()[newCap..]
    {
      if dst != null {
        var stripped := size - newCap;
        dst.Reset(stripped);
        for i := 0 to stripped
          modifies this`head, dst.arr
          invariant head == Slot(tail, size - i, cap)
          invariant dst.arr[stripped - i..] == Contents()[size - i..]
        {
          head := Dec(head, cap);
          dst.arr[stripped - i - 1] := arr[head];
        }
        dst.size := stripped;
      } else {
        SlotIsModulo(tail, newCap, cap);
        head := (tail + newCap) % cap;
      }
    }

    /** Lines 111-113 of the source: nothing wraps, newCap cells move to the front. Answers
        whether that went without reading past the end of the block. */
    method RebaseStraight(newCap: nat, ghost kept: nat) returns (inBounds: bool)
      requires arr.Length == cap && tail < cap && kept <= newCap && tail + kept < cap
      modifies arr
      ensures inBounds <==> tail + newCap <= cap
      ensures inBounds ==> arr[..kept] == old(Logical(arr[..], tail, kept))
    {
      if tail + newCap > cap {
        return false;
      }
      ghost var was := arr[..];
      ShiftLeft(arr, tail, newCap);
      assert arr[..kept] == arr[..newCap][..kept] == was[tail..tail + kept] == Logical(was, tail, kept);
      return true;
    }

    /** Lines 115-131 of the source: the wrapped prefix is held aside while the rest moves. */
    method RebaseWrapped(newCap: nat) returns (inBounds: bool)
      requires arr.Length == cap && tail < cap && head <= tail && head <= newCap
      modifies arr
      ensures inBounds <==> tail + newCap - head <= cap
      ensures inBounds ==> arr[..newCap] == old(arr[tail..tail + newCap - head]) + old(arr[..head])
    {
      var n := newCap - head;
      var hold := HoldPrefix(head);
      if tail + n > cap {
        return false;
      }
      ShiftLeft(arr, tail, n);
      CopyApart(arr, hold, 0, n, head);
      JoinedSlices(arr[..], n, head);
      assert arr[..newCap] == arr[..][..n + head];
      assert arr[..n] == arr[..][..n];
      assert arr[n..n + head] == arr[..][n..n + head];
      return true;
    }

    method HoldPrefix(n: nat) returns (hold: array<T>)
      requires n <= arr.Length
      ensures fresh(hold) && hold.Length == n && hold[0..n] == arr[..n]
    {
      hold := new T[n];
      CopyApart(hold, arr, 0, 0, n);
    }

    /** Lines 111-132 of the source: the `kept` live elements move to the front. */
    method Rebase(newCap: nat, ghost kept: nat) returns (inBounds: bool)
      requires arr.Length == cap && tail < cap && size <= cap && 0 < newCap < cap
      requires kept == Min(size, newCap) && head == Slot(tail, kept, cap)
      requires newCap < tail + size
      modifies arr
      ensures inBounds <==> !ReadsPastEnd(newCap)
      ensures inBounds ==> arr[..kept] == old(Logical(arr[..], tail, kept))
    {
      inBounds := true;
      if head > tail {
        inBounds := RebaseStraight(newCap, kept);
      } else if size > 0 {
        ghost var was := arr[..];
        inBounds := RebaseWrapped(newCap);
        assert inBounds ==> was[tail..cap] + was[..head] == Logical(was, tail, kept);
      }
    }

    /** Lines 134-145 of the source. */
    method Restart(newCap: nat)
      requires arr.Length == cap && 0 < newCap < cap
      modifies this
      ensures Valid() && fresh(arr) && cap == newCap && tail == 0
      ensures Contents() == old(arr[..Min(size, newCap)])
    {
      var newArr := Realloc(arr, newCap);
      var kept := Min(size, newCap);
      assert newArr[..kept] == newArr[..newCap][..kept] == arr[..newCap][..kept] == arr[..kept];
      arr, cap := newArr, newCap;
      size := kept;
      tail := 0;
      SlotIsModulo(tail, size, cap);
      head := (tail + size) % cap;
      assert Contents() == arr[..kept];
    }

    /** The buffer holds the first newCap elements of `was` and dst, if given, all the rest. */
    ghost predicate HoldsShrunk(was: seq<T>, newCap: nat, dst: Vec?<T>)
      reads this, arr
      reads if dst == null then {} else {dst, dst.arr}
    {
      var kept := Min(|was|, newCap);
      && Valid() && cap == newCap && Contents() == was[..kept]
      && (dst != null ==> dst.Valid() && dst.Contents() == was[kept..])
    }

    /** Keeps the first newCap elements and hands the rest, in order, to dst -- on the inputs
        of `ShrinksAsDocumented`, and only on those. */
    method Shrink(newCap: nat, dst: Vec?<T>) returns (o: Outcome)
      requires Valid()
      modifies this, arr
      modifies if dst == null then {} else {dst}
      ensures newCap > old(cap) ==>
        o == Returned(CapLower) && unchanged(this) && unchanged(arr)
      ensures newCap > old(cap) && dst != null ==> dst.Valid() && dst.Contents() == []
      ensures newCap <= old(cap) ==>
        (old(ShrinksAsDocumented(newCap, dst != null)) <==>
           o == Returned(Ok) && HoldsShrunk(old(Contents()), newCap, dst))
      ensures o == Fault <==> old(ReadsPastEnd(newCap))
      ensures newCap <= old(cap) && old(ShrinksAsDocumented(newCap, dst != null)) ==>
        tail == if newCap == old(cap) || old(tail + size) < newCap then old(tail) else 0
      ensures 0 < newCap < old(cap) && old(tail + size) == newCap ==>
        o == Returned(Ok) && head == newCap == cap && tail == old(tail) && size == old(size)
      ensures newCap == 0 ==> o == Returned(Ok) && HoldsShrunk([], 0, dst)
      ensures arr == old(arr) || fresh(arr)
    {
      if dst != null {
        dst.Reset(0);
      }
      if cap < newCap {
        return Returned(CapLower);
      } else if cap == newCap {
        return Returned(Ok);
      }
      if newCap == 0 {
        arr := new T[0];
        size, cap, head, tail := 0, 0, 0, 0;
        return Returned(Ok);
      }
      if tail + size <= newCap {
        Truncate(newCap);
        return Returned(Ok);
      }
      var inBounds := ShiftAndCut(newCap, dst);
      return if inBounds then Returned(Ok) else Fault;
    }

    /** Lines 90-145 of the source. */
    method ShiftAndCut(newCap: nat, dst: Vec?<T>) returns (inBounds: bool)
      requires Valid() && 0 < newCap < cap && newCap < tail + size
      requires dst != null ==> dst.Valid() && dst.arr != arr && dst.Contents() == []
      modifies this, arr
      modifies if dst == null then {} else {dst}
      ensures inBounds <==> !old(ReadsPastEnd(newCap))
      ensures inBounds ==> HoldsShrunk(old(Contents()), newCap, dst) && tail == 0
      ensures arr == old(arr) || fresh(arr)
    {
      ghost var was := Contents();
      ghost var kept := Min(size, newCap);
      if size >= newCap {
        TrimInto(newCap, dst);
      }
      assert dst != null ==> dst.Contents() == was[kept..];
      assert Logical(arr[..], tail, kept) == was[..kept];
      inBounds := Rebase(newCap, kept);
      if inBounds {
        Restart(newCap);
      }
    }

    /** Lines 80-87 of the source: no element lies beyond newCap. */
    method Truncate(newCap: nat)
      requires Valid() && 0 < newCap < cap && tail + size <= newCap
      modifies this`arr, this`cap
      ensures fresh(arr) && arr.Length == cap == newCap
      ensures tail + size < newCap ==> Valid() && Contents() == old(Contents())
    {
      var newArr := Realloc(arr, newCap);
      assert forall k | tail <= k < tail + size :: newArr[k] == newArr[..newCap][k] == arr[..newCap][k];
      arr, cap := newArr, newCap;
    }
  }
}
