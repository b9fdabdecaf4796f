/** The dynamic array of chatd/collections/vec.c. */
module Vectors {
  import opened Collections

  /** Position of the first occurrence of e in s, if there is one. */
  ghost predicate IsFirstIndex<T>(s: seq<T>, e: T, index: Option<nat>) {
    match index
    case Some(i) => i < |s| && s[i] == e && e !in s[..i]
    case None => e !in s
  }

  /** s without the first e, if there is one. */
  ghost function WithoutFirst<T>(s: seq<T>, e: T): seq<T> {
    if s == [] then []
    else if s[0] == e then s[1..]
    else [s[0]] + WithoutFirst(s[1..], e)
  }

  lemma {:induction false} WithoutFirstAbsent<T>(s: seq<T>, e: T)
    requires e !in s
    ensures WithoutFirst(s, e) == s
  {
    if s != [] {
      WithoutFirstAbsent(s[1..], e);
    }
  }

  lemma {:induction false} WithoutFirstAt<T>(s: seq<T>, i: nat)
    requires i < |s| && s[i] !in s[..i]
    ensures WithoutFirst(s, s[i]) == Removed(s, i)
  {
    if i == 0 {
      assert Removed(s, 0) == s[1..];
    } else {
      assert s[0] == s[..i][0] && s[1..][..i - 1] == s[..i][1..];
      WithoutFirstAt(s[1..], i - 1);
      assert Removed(s, i) == [s[0]] + Removed(s[1..], i - 1);
    }
  }

  /** `struct vec`; a NULL `arr` is the array of length 0. */
  class Vec<T(0, ==)> {
    var cap: nat
    var size: nat
    var arr: array<T>

    ghost predicate Valid()
      reads this
    {
      arr.Length == cap && size <= cap
    }

    ghost function Contents(): seq<T>
      requires Valid()
      reads this, arr
    {
      arr[..size]
    }

    constructor WithCapacity(cap: nat)
      ensures Valid() && fresh(arr)
      ensures this.cap == cap && Contents() == []
    {
      this.cap, size := cap, 0;
      arr := new T[cap];
    }

    /** `vec_with_capacity` on an existing, possibly uninitialised, struct. */
    method Reset(cap: nat)
      modifies this
      ensures Valid() && fresh(arr)
      ensures this.cap == cap && Contents() == []
    {
      this.cap, size := cap, 0;
      arr := new T[cap];
    }

    method Expand(newCap: nat) returns (r: CResult)
      requires Valid()
      modifies this
      ensures Valid() && (arr == old(arr) || fresh(arr))
      ensures Contents() == old(Contents())
      ensures r == if old(cap) > newCap then CapGreater else Ok
      ensures cap == Max(old(cap), newCap)
    {
      if cap > newCap {
        return CapGreater;
      } else if cap == newCap {
        return Ok;
      }
      var newArr := Realloc(arr, newCap);
      assert newArr[..size] == newArr[..cap][..size] == arr[..size];
      arr, cap := newArr, newCap;
      return Ok;
    }

    /** Lines 45-55 of the source: what lies beyond newCap replaces the contents of dst. */
    method CopyTail(newCap: nat, dst: Vec<T>)
      requires Valid() && dst.Valid() && dst != this && dst.arr != arr
      modifies dst, dst.arr
      ensures dst.Valid() && (dst.arr == old(dst.arr) || fresh(dst.arr))
      ensures dst.Contents() == Contents()[Min(size, newCap)..]
    {
      if newCap < size {
        var _ := dst.Expand(size - newCap);
        for i := 0 to size - newCap
          modifies dst.arr
          invariant dst.arr[..i] == arr[newCap..newCap + i]
        {
          dst.arr[i] := arr[newCap + i];
        }
        dst.size := size - newCap;
      } else {
        dst.size, dst.cap := 0, 0;
        dst.arr := new T[0];
      }
    }

    /** Splits the contents at newCap; what is cut off replaces the contents of dst. */
    method Shrink(newCap: nat, dst: Vec?<T>) returns (r: CResult)
      requires Valid()
      requires dst != null ==> dst.Valid() && dst != this && dst.arr != arr
      modifies this
      modifies if dst == null then {} else {dst, dst.arr}
      ensures Valid() && (arr == old(arr) || fresh(arr))
      ensures cap == Min(old(cap), newCap)
      ensures r == if old(cap) < newCap then CapLower else Ok
      ensures Contents() == old(Contents())[..Min(old(size), cap)]
      ensures dst != null ==> dst.Valid()
      ensures dst != null && newCap < old(cap) ==> Contents() + dst.Contents() == old(Contents())
      ensures dst != null && newCap >= old(cap) ==> dst.Contents() == old(dst.Contents())
    {
      if cap < newCap {
        return CapLower;
      } else if cap == newCap {
        return Ok;
      }
      if dst != null {
        CopyTail(newCap, dst);
      }
      CutBack(newCap);
      return Ok;
    }

    /** Lines 57-67 of the source. */
    method CutBack(newCap: nat)
      requires Valid() && newCap < cap
      modifies this
      ensures Valid() && fresh(arr) && cap == newCap
      ensures Contents() == old(Contents())[..Min(old(size), newCap)]
    {
      var kept := Min(size, newCap);
      var newArr := Realloc(arr, newCap);
      assert newArr[..kept] == newArr[..newCap][..kept] == arr[..newCap][..kept] == Contents()[..kept];
      cap, arr := newCap, newArr;
      size := kept;
    }

    /** The loop of `vec_insert`: moves everything from `index` on one cell to the right. */
    method OpenGap(index: nat)
      requires Valid() && index <= size < cap
      modifies arr
      ensures arr[..index] == old(arr[..index])
      ensures arr[index + 1..size + 1] == old(arr[index..size])
    {
      var i := size;
      while i > index
        invariant index <= i <= size
        invariant arr[..i] == old(arr[..i])
        invariant arr[i + 1..size + 1] == old(arr[i..size])
      {
        arr[i] := arr[i - 1];
        i := i - 1;
      }
    }

    method Insert(index: nat, e: T) returns (r: CResult)
      requires Valid()
      modifies this, arr
      ensures Valid() && (arr == old(arr) || fresh(arr))
      ensures index > old(size) ==>
        r == OutOfBounds && Contents() == old(Contents()) && cap == old(cap)
      ensures index <= old(size) ==>
        r == Ok && Contents() == Inserted(old(Contents()), index, e)
        && cap == if old(size) == old(cap) then old(cap) + EXPAND_DELTA else old(cap)
    {
      if index > size {
        return OutOfBounds;
      }
      if size == cap {
        var _ := Expand(cap + EXPAND_DELTA);
      }
      ghost var was := Contents();
      assert arr[..index] == was[..index] && arr[index..size] == was[index..];
      OpenGap(index);
      arr[index] := e;
      size := size + 1;
      assert arr[..size] == arr[..index] + [arr[index]] + arr[index + 1..size];
      return Ok;
    }

    method Push(e: T) returns (r: CResult)
      requires Valid()
      modifies this, arr
      ensures Valid() && (arr == old(arr) || fresh(arr))
      ensures r == Ok && Contents() == old(Contents()) + [e]
      ensures cap == if old(size) == old(cap) then old(cap) + EXPAND_DELTA else old(cap)
    {
      r := Insert(size, e);
      assert old(Contents())[..old(size)] == old(Contents());
    }

    method Remove(index: nat) returns (r: CResult, removed: Option<T>)
      requires Valid()
      modifies this`size, arr
      ensures Valid()
      ensures index >= old(size) ==>
        r == OutOfBounds && removed == None && Contents() == old(Contents())
      ensures index < old(size) ==>
        r == Ok && removed == Some(old(Contents())[index])
        && Contents() == Collections.Removed(old(Contents()), index)
    {
      if index >= size {
        return OutOfBounds, None;
      }
      removed := Some(arr[index]);
      ghost var was := Contents();
      for i := index to size - 1
        modifies arr
        invariant forall k | 0 <= k < index :: arr[k] == was[k]
        invariant forall k | index <= k < i :: arr[k] == was[k + 1]
        invariant forall k | i <= k < size :: arr[k] == was[k]
      {
        arr[i] := arr[i + 1];
      }
      size := size - 1;
      assert Contents() == Collections.Removed(was, index);
      return Ok, removed;
    }

    /** The source answers SIZE_MAX for "not found"; here that is None. */
    method IndexOf(e: T) returns (index: Option<nat>)
      requires Valid()
      ensures IsFirstIndex(Contents(), e, index)
    {
      for i := 0 to size
        invariant e !in arr[..i]
      {
        if arr[i] == e {
          return Some(i);
        }
      }
      return None;
    }

    /** Deletes the first occurrence of e and nothing else. */
    method RemoveByValue(e: T) returns (r: CResult)
      requires Valid()
      modifies this`size, arr
      ensures Valid() && Contents() == WithoutFirst(old(Contents()), e)
      ensures r == if e in old(Contents()) then Ok else NotFound
    {
      var index := IndexOf(e);
      if index == None {
        WithoutFirstAbsent(Contents(), e);
        return NotFound;
      }
      WithoutFirstAt(Contents(), index.value);
      var _, _ := Remove(index.value);
      return Ok;
    }

    method Pop() returns (r: CResult, popped: Option<T>)
      requires Valid()
      modifies this`size, arr
      ensures Valid()
      ensures old(Contents()) == [] ==> r == OutOfBounds && popped == None && Contents() == []
      ensures old(Contents()) != [] ==>
        r == Ok && popped.Some? && old(Contents()) == Contents() + [popped.value]
    {
      if size == 0 {
        // size - 1 is SIZE_MAX here, which the bounds test of `Remove` rejects
        return OutOfBounds, None;
      }
      r, popped := Remove(size - 1);
    }
  }

  // ------------------------------------------------------------ whole runs

  datatype Op<T> =
    | DoInsert(index: nat, e: T)
    | DoPush(e: T)
    | DoPop
    | DoRemove(index: nat)
    | DoRemoveByValue(e: T)
    | DoExpand(cap: nat)
    | DoShrink(cap: nat, hasDst: bool)

  /** A vector as its callers see it. */
  datatype Held<T> = Held(elements: seq<T>, cap: nat)

  /** What an operation makes of a plain sequence. */
  ghost function Plain<T>(s: seq<T>, op: Op<T>): seq<T> {
    match op
    case DoInsert(i, e) => if i <= |s| then Inserted(s, i, e) else s
    case DoPush(e) => s + [e]
    case DoPop => if s == [] then s else s[..|s| - 1]
    case DoRemove(i) => if i < |s| then Removed(s, i) else s
    case DoRemoveByValue(e) => WithoutFirst(s, e)
    case DoExpand(_) => s
    case DoShrink(c, _) => if c < |s| then s[..c] else s
  }

  /** The elements it hands out. */
  function Taken<T>(s: seq<T>, op: Op<T>): seq<T> {
    match op
    case DoPop => if s == [] then [] else [s[|s| - 1]]
    case DoRemove(i) => if i < |s| then [s[i]] else []
    case DoShrink(c, hasDst) => if hasDst && c < |s| then s[c..] else []
    case _ => []
  }

  function CodeOf<T(==)>(v: Held<T>, op: Op<T>): CResult {
    match op
    case DoInsert(i, _) => if i > |v.elements| then OutOfBounds else Ok
    case DoPush(_) => Ok
    case DoPop => if v.elements == [] then OutOfBounds else Ok
    case DoRemove(i) => if i >= |v.elements| then OutOfBounds else Ok
    case DoRemoveByValue(e) => if e in v.elements then Ok else NotFound
    case DoExpand(c) => if v.cap > c then CapGreater else Ok
    case DoShrink(c, _) => if v.cap < c then CapLower else Ok
  }

  function CapAfter<T>(v: Held<T>, op: Op<T>): nat {
    var grown := if |v.elements| == v.cap then v.cap + EXPAND_DELTA else v.cap;
    match op
    case DoInsert(i, _) => if i <= |v.elements| then grown else v.cap
    case DoPush(_) => grown
    case DoExpand(c) => Max(v.cap, c)
    case DoShrink(c, _) => Min(v.cap, c)
    case _ => v.cap
  }

  ghost function Step<T>(v: Held<T>, op: Op<T>): (Held<T>, Answer<T>) {
    (Held(Plain(v.elements, op), CapAfter(v, op)), Answer(CodeOf(v, op), Taken(v.elements, op)))
  }

  ghost function Run<T>(v: Held<T>, ops: seq<Op<T>>): (Held<T>, seq<Answer<T>>) {
    if ops == [] then (v, [])
    else
      var (before, answers) := Run(v, ops[..|ops| - 1]);
      var (after, answer) := Step(before, ops[|ops| - 1]);
      (after, answers + [answer])
  }

  lemma RunOneMore<T>(v: Held<T>, ops: seq<Op<T>>, op: Op<T>)
    ensures var (before, answers) := Run(v, ops);
            var (after, answer) := Step(before, op);
            Run(v, ops + [op]) == (after, answers + [answer])
  {
    assert (ops + [op])[..|ops|] == ops;
  }

  /** What went in last comes out first, at the end and at any index. */
  lemma LastInFirstOut<T>(v: Held<T>, e: T, i: nat)
    requires i <= |v.elements|
    ensures var (after, answer) := Step(Step(v, DoPush(e)).0, DoPop);
            after.elements == v.elements && answer == Answer(Ok, [e])
    ensures var (after, answer) := Step(Step(v, DoInsert(i, e)).0, DoRemove(i));
            after.elements == v.elements && answer == Answer(Ok, [e])
  {
    hide WithoutFirst;
    RemovedAfterInserted(v.elements, i, e);
  }

  /** A value that was not there and is pushed can be removed again. */
  lemma PushedIsRemoved<T>(v: Held<T>, e: T)
    requires e !in v.elements
    ensures Step(Step(v, DoPush(e)).0, DoRemoveByValue(e)).0.elements == v.elements
  {
    WithoutFirstAt(v.elements + [e], |v.elements|);
    hide WithoutFirst;
    assert Removed(v.elements + [e], |v.elements|) == v.elements;
  }

  /** A shrink into another vector loses nothing, and an expansion changes no element. */
  lemma ResizingKeeps<T>(v: Held<T>, cap: nat)
    ensures var (after, answer) := Step(v, DoShrink(cap, true)); after.elements + answer.taken == v.elements
    ensures Step(v, DoExpand(cap)).0.elements == v.elements
  {
    hide WithoutFirst;
    assert v.elements + [] == v.elements;
  }

  ghost function StateOf<T(0)>(v: Vec<T>): Held<T>
    requires v.Valid()
    reads v, v.arr
  {
    Held(v.Contents(), v.cap)
  }

  /** Operations that hand out no element. */
  method Change<T(0, ==)>(v: Vec<T>, op: Op<T>) returns (code: CResult)
    requires v.Valid() && (op.DoInsert? || op.DoPush? || op.DoRemoveByValue? || op.DoExpand?)
    modifies v, v.arr
    ensures v.Valid() && (v.arr == old(v.arr) || fresh(v.arr))
    ensures (StateOf(v), Answer(code, [])) == Step(old(StateOf(v)), op)
  {
    match op
    case DoInsert(i, e) => code := v.Insert(i, e);
    case DoPush(e) => code := v.Push(e);
    case DoRemoveByValue(e) => code := v.RemoveByValue(e);
    case DoExpand(c) => code := v.Expand(c);
  }

  /** Operations that hand some out. */
  method Take<T(0, ==)>(v: Vec<T>, op: Op<T>) returns (code: CResult, taken: seq<T>)
    requires v.Valid() && (op.DoPop? || op.DoRemove?)
    modifies v, v.arr
    ensures v.Valid() && v.arr == old(v.arr)
    ensures (StateOf(v), Answer(code, taken)) == Step(old(StateOf(v)), op)
  {
    ghost var was := v.Contents();
    var e: Option<T>;
    match op {
      case DoPop =>
        code, e := v.Pop();
        assert was != [] ==> was[..|was| - 1] == v.Contents();
      case DoRemove(i) => code, e := v.Remove(i);
    }
    taken := if e.Some? then [e.value] else [];
  }

  method Cut<T(0, ==)>(v: Vec<T>, cap: nat, hasDst: bool) returns (code: CResult, taken: seq<T>)
    requires v.Valid()
    modifies v, v.arr
    ensures v.Valid() && (v.arr == old(v.arr) || fresh(v.arr))
    ensures (StateOf(v), Answer(code, taken)) == Step(old(StateOf(v)), DoShrink(cap, hasDst))
  {
    ghost var was := v.Contents();
    assert was[..|was|] == was && was[|was|..] == [];
    var dst: Vec?<T> := null;
    if hasDst {
      dst := new Vec<T>.WithCapacity(0);
    }
    code := v.Shrink(cap, dst);
    taken := if dst == null then [] else dst.arr[..dst.size];
    assert dst != null && cap < |was| ==> taken == was[cap..];
  }

  method Perform<T(0, ==)>(v: Vec<T>, op: Op<T>) returns (answer: Answer<T>)
    requires v.Valid()
    modifies v, v.arr
    ensures v.Valid() && (v.arr == old(v.arr) || fresh(v.arr))
    ensures (StateOf(v), answer) == Step(old(StateOf(v)), op)
  {
    var code, taken := Ok, [];
    if op.DoShrink? {
      code, taken := Cut(v, op.cap, op.hasDst);
    } else if op.DoPop? || op.DoRemove? {
      code, taken := Take(v, op);
    } else {
      code := Change(v, op);
    }
    return Answer(code, taken);
  }

  /** Any run on the vector is the run on the plain sequence: contents, capacity, result codes
      and the elements handed out. */
  method PerformAll<T(0, ==)>(v: Vec<T>, ops: seq<Op<T>>) returns (answers: seq<Answer<T>>)
    requires v.Valid()
    modifies v, v.arr
    ensures v.Valid()
    ensures (StateOf(v), answers) == Run(old(StateOf(v)), ops)
  {
    answers := [];
    for i := 0 to |ops|
      invariant v.Valid() && (v.arr == old(v.arr) || fresh(v.arr))
      invariant (StateOf(v), answers) == Run(old(StateOf(v)), ops[..i])
    {
      assert ops[..i + 1][..i] == ops[..i];
      var answer := Perform(v, ops[i]);
      answers := answers + [answer];
    }
    assert ops[..|ops|] == ops;
  }
}
