/** Result codes and memory primitives shared by the two containers. */
module Collections {

  datatype CResult = Ok | NoMem | Empty | OutOfBounds | CapGreater | CapLower | NotFound

  datatype Option<+T> = None | Some(value: T)

  /** What a call answers: its result code, and the elements it hands out. */
  datatype Answer<T> = Answer(code: CResult, taken: seq<T>)

  /** VEC_EXPAND_DELTA and RINGBUFFER_EXPAND_DELTA. */
  const EXPAND_DELTA: nat := 16

  function Min(a: nat, b: nat): nat { if a <= b then a else b }

  function Max(a: nat, b: nat): nat { if a <= b then b else a }

  /** `realloc`: a block of n cells that starts with as much of the old block as fits.
      The remaining cells hold arbitrary values. */
  method Realloc<T(0)>(a: array<T>, n: nat) returns (b: array<T>)
    ensures fresh(b) && b.Length == n
    ensures b[..Min(n, a.Length)] == a[..Min(n, a.Length)]
  {
    b := new T[n];
    forall i | 0 <= i < Min(n, a.Length) { b[i] := a[i]; }
  }

  /** What inserting e at `index` means. */
  function Inserted<T>(s: seq<T>, index: nat, e: T): seq<T>
    requires index <= |s|
  {
    s[..index] + [e] + s[index..]
  }

  /** What removing the element at `index` means. */
  function Removed<T>(s: seq<T>, index: nat): seq<T>
    requires index < |s|
  {
    s[..index] + s[index + 1..]
  }

  lemma RemovedAfterInserted<T>(s: seq<T>, index: nat, e: T)
    requires index <= |s|
    ensures Inserted(s, index, e)[index] == e
    ensures Removed(Inserted(s, index, e), index) == s
  {
    assert Inserted(s, index, e)[..index] == s[..index];
    assert Inserted(s, index, e)[index + 1..] == s[index..];
  }

  lemma Associative<T>(a: seq<T>, b: seq<T>, c: seq<T>)
    ensures a + b + c == a + (b + c)
  {
  }

  lemma SplitAt<T>(s: seq<T>, i: nat)
    requires i < |s|
    ensures s == s[..i] + [s[i]] + s[i + 1..]
  {
  }

  predicate NoDuplicates<T(==)>(s: seq<T>) {
    forall i, j | 0 <= i < j < |s| :: s[i] != s[j]
  }

  /** s without x, in the same order. */
  function Without<T(==)>(s: seq<T>, x: T): seq<T> {
    if s == [] then []
    else if s[0] == x then Without(s[1..], x)
    else [s[0]] + Without(s[1..], x)
  }

  lemma {:induction false} WithoutAbsent<T>(s: seq<T>, x: T)
    requires x !in s
    ensures Without(s, x) == s
  {
    if s != [] {
      WithoutAbsent(s[1..], x);
    }
  }

  /** Removing the one position that holds x. */
  lemma {:induction false} WithoutAt<T>(s: seq<T>, i: nat)
    requires i < |s| && NoDuplicates(s)
    ensures Without(s, s[i]) == Removed(s, i)
  {
    if i == 0 {
      WithoutAbsent(s[1..], s[0]);
      assert Removed(s, 0) == s[1..];
    } else {
      WithoutAt(s[1..], i - 1);
      assert Removed(s, i) == [s[0]] + Removed(s[1..], i - 1);
    }
  }

  lemma {:induction false} WithoutHolds<T>(s: seq<T>, x: T)
    ensures forall y | y in s && y != x :: y in Without(s, x)
    ensures forall y | y in Without(s, x) :: y in s && y != x
    ensures NoDuplicates(s) ==> NoDuplicates(Without(s, x))
  {
    if s != [] {
      WithoutHolds(s[1..], x);
      assert NoDuplicates(s) ==> NoDuplicates(s[1..]) && s[0] !in s[1..];
    }
  }

  lemma {:induction false} WithoutAppended<T>(s: seq<T>, x: T)
    requires x !in s
    ensures Without(s + [x], x) == s
  {
    if s != [] {
      WithoutAppended(s[1..], x);
      assert (s + [x])[1..] == s[1..] + [x];
    }
  }
}
