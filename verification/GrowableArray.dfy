/**
 libhv's growable array: elements in the front of a block of memory that doubles when full.

 It is a sequence. Positions may be counted from the end with negative numbers.
 */
module GrowableArray {

  const ARRAY_INIT_SIZE: nat := 16

  // ---- The sequence behind it ----

  /** A negative position counts from the end. */
  function Index(size: nat, pos: int): int { if pos < 0 then pos + size else pos }

  function Inserted<T>(s: seq<T>, i: int, x: T): seq<T>
    requires 0 <= i <= |s|
  {
    s[..i] + [x] + s[i..]
  }

  function Removed<T>(s: seq<T>, i: int): seq<T>
    requires 0 <= i < |s|
  {
    s[..i] + s[i + 1..]
  }

  /** The last element takes the place of the one removed. */
  function RemovedFast<T>(s: seq<T>, i: int): seq<T>
    requires 0 <= i < |s|
  {
    var last := |s| - 1;
    if i < last then s[..last][i := s[last]] else s[..last]
  }

  function Swapped<T>(s: seq<T>, i: int, j: int): seq<T>
    requires 0 <= i < |s| && 0 <= j < |s|
  {
    s[i := s[j]][j := s[i]]
  }

  // ---- The array ----

  class Array<T(0)> {
    var ptr: array<T>
    var size: nat
    var maxsize: nat
    /** What fresh memory holds: all bits zero. */
    const zero: T

    ghost predicate Valid()
      reads this
    {
      size <= maxsize == ptr.Length
    }

    ghost function Contents(): seq<T>
      reads this, ptr
      requires Valid()
    {
      ptr[..size]
    }

    constructor (zero: T, maxsize: nat)
      ensures Valid() && fresh(ptr) && Contents() == [] && this.maxsize == maxsize && this.zero == zero
    {
      this.zero := zero;
      size := 0;
      this.maxsize := maxsize;
      ptr := new T[maxsize](_ => zero);
    }

    /** Valid positions are exactly those from -size up to size - 1. */
    method At(pos: int) returns (x: T)
      requires Valid() && 0 <= Index(size, pos) < size
      ensures x == if pos < 0 then Contents()[size + pos] else Contents()[pos]
    {
      x := ptr[if pos < 0 then pos + size else pos];
    }

    method Front() returns (x: T, found: bool)
      requires Valid()
      ensures found <==> Contents() != []
      ensures found ==> x == Contents()[0]
    {
      found := size != 0;
      x := if found then ptr[0] else zero;
    }

    method Back() returns (x: T, found: bool)
      requires Valid()
      ensures found <==> Contents() != []
      ensures found ==> x == Contents()[|Contents()| - 1]
    {
      found := size != 0;
      x := if found then ptr[size - 1] else zero;
    }

    method Clear()
      requires Valid()
      modifies this`size, ptr
      ensures Valid() && Contents() == [] && forall i :: 0 <= i < maxsize ==> ptr[i] == zero
    {
      size := 0;
      for i := 0 to maxsize
        invariant Valid() && size == 0 && forall k :: 0 <= k < i ==> ptr[k] == zero
      {
        ptr[i] := zero;
      }
    }

    /** The block is copied; what is new in it is zero. Shrinking below the size is the caller's fault. */
    method Resize(capacity: nat)
      requires Valid() && size <= if capacity == 0 then ARRAY_INIT_SIZE else capacity
      modifies this`ptr, this`maxsize
      ensures Valid() && fresh(ptr) && Contents() == old(Contents()) && size == old(size)
      ensures maxsize == if capacity == 0 then 16 else capacity
      ensures forall i :: old(maxsize) <= i < maxsize ==> ptr[i] == zero
    {
      var n := if capacity == 0 then ARRAY_INIT_SIZE else capacity;
      var block := new T[n](_ => zero);
      var kept := if maxsize < n then maxsize else n;
      for i := 0 to kept
        modifies block
        invariant forall k :: 0 <= k < i ==> block[k] == ptr[k]
        invariant forall k :: i <= k < n ==> block[k] == zero
      {
        block[i] := ptr[i];
      }
      assert block[..size] == ptr[..size];
      ptr := block;
      maxsize := n;
    }

    method DoubleResize()
      requires Valid()
      modifies this`ptr, this`maxsize
      ensures Valid() && fresh(ptr) && Contents() == old(Contents()) && size == old(size)
      ensures maxsize == if old(maxsize) == 0 then 16 else 2 * old(maxsize)
    {
      Resize(maxsize * 2);
    }

    method PushBack(x: T)
      requires Valid()
      modifies this, ptr
      ensures Valid() && (ptr == old(ptr) || fresh(ptr))
      ensures Contents() == old(Contents()) + [x]
      ensures old(size < maxsize) ==> ptr == old(ptr) && maxsize == old(maxsize)
    {
      if size == maxsize { DoubleResize(); }
      ptr[size] := x;
      size := size + 1;
    }

    method PopBack()
      requires Valid() && size > 0
      modifies this`size
      ensures Valid() && Contents() == old(Contents())[..old(size) - 1]
    {
      size := size - 1;
    }

    /** memmove towards the end: the stretch from pos on goes one place up, last element first. */
    method MoveUp(pos: nat)
      requires Valid() && pos <= size < maxsize
      modifies ptr
      ensures ptr[..pos] == old(ptr[..pos]) && ptr[pos + 1..size + 1] == old(ptr[pos..size])
    {
      var i := size;
      while i > pos
        invariant pos <= i <= size
        invariant forall k :: 0 <= k <= i ==> ptr[k] == old(ptr[k])
        invariant forall k :: i < k <= size ==> ptr[k] == old(ptr[k - 1])
      {
        ptr[i] := ptr[i - 1];
        i := i - 1;
      }
    }

    /** memmove towards the front: the stretch behind pos goes one place down, first element first. */
    method MoveDown(pos: nat)
      requires Valid() && pos <= size < maxsize
      modifies ptr
      ensures ptr[..pos] == old(ptr[..pos]) && ptr[pos..size] == old(ptr[pos + 1..size + 1])
    {
      var i := pos;
      while i < size
        invariant pos <= i <= size
        invariant forall k :: 0 <= k < pos || i <= k < maxsize ==> ptr[k] == old(ptr[k])
        invariant forall k :: pos <= k < i ==> ptr[k] == old(ptr[k + 1])
      {
        ptr[i] := ptr[i + 1];
        i := i + 1;
      }
    }

    method Add(x: T, pos: int)
      requires Valid() && 0 <= Index(size, pos) <= size
      modifies this, ptr
      ensures Valid() && (ptr == old(ptr) || fresh(ptr))
      ensures Contents() == Inserted(old(Contents()), Index(old(size), pos), x)
    {
      hide Inserted;
      var p := if pos < 0 then pos + size else pos;
      if size == maxsize { DoubleResize(); }
      ghost var s := Contents();
      assert ptr[..p] == s[..p] && ptr[p..size] == s[p..];
      if p < size { MoveUp(p); }
      ptr[p] := x;
      size := size + 1;
      InsertedIs(Contents(), s, p, x) by {
        assert Contents()[..p] == ptr[..p] && Contents()[p + 1..] == ptr[p + 1..size];
      }
    }

    method Del(pos: int)
      requires Valid() && 0 <= Index(size, pos) < size
      modifies this`size, ptr
      ensures Valid() && Contents() == Removed(old(Contents()), Index(old(size), pos))
    {
      var p := if pos < 0 then pos + size else pos;
      ghost var s := Contents();
      size := size - 1;
      assert ptr[..p] == s[..p] && ptr[p + 1..size + 1] == s[p + 1..];
      if p < size { MoveDown(p); }
      assert ptr[..size] == ptr[..p] + ptr[p..size];
    }

    method DelNoMove(pos: int)
      requires Valid() && 0 <= Index(size, pos) < size
      modifies this`size, ptr
      ensures Valid() && Contents() == RemovedFast(old(Contents()), Index(old(size), pos))
    {
      var p := if pos < 0 then pos + size else pos;
      size := size - 1;
      if p < size { ptr[p] := ptr[size]; }
    }

    /** The positions are not checked; any within the block will do. */
    method Swap(pos1: int, pos2: int)
      requires Valid() && 0 <= Index(size, pos1) < maxsize && 0 <= Index(size, pos2) < maxsize
      modifies ptr
      ensures Valid()
      ensures ptr[..] == Swapped(old(ptr[..]), Index(size, pos1), Index(size, pos2))
      ensures Index(size, pos1) < size && Index(size, pos2) < size ==>
                Contents() == Swapped(old(Contents()), Index(size, pos1), Index(size, pos2))
    {
      var i, j := if pos1 < 0 then pos1 + size else pos1, if pos2 < 0 then pos2 + size else pos2;
      var tmp := ptr[i];
      ptr[i] := ptr[j];
      ptr[j] := tmp;
    }

    method Cleanup()
      modifies this`ptr, this`size, this`maxsize
      ensures Valid() && fresh(ptr) && Contents() == [] && maxsize == 0
    {
      ptr := new T[0];
      size, maxsize := 0, 0;
    }
  }

  lemma InsertedIs<T>(a: seq<T>, s: seq<T>, i: nat, x: T)
    requires i <= |s| && |a| == |s| + 1 && a[..i] == s[..i] && a[i] == x && a[i + 1..] == s[i..]
    ensures a == Inserted(s, i, x)
  {
    assert a == a[..i] + [a[i]] + a[i + 1..];
  }

  // ---- Laws ----

  /** Inserting moves what is behind one place up, and nothing else. */
  lemma InsertedAt<T>(s: seq<T>, i: nat, x: T, k: nat)
    requires i <= |s| && k <= |s|
    ensures |Inserted(s, i, x)| == |s| + 1
    ensures Inserted(s, i, x)[k] == if k < i then s[k] else if k == i then x else s[k - 1]
  {}

  /** Removing moves what is behind one place down; the fast way moves the last element only. */
  lemma RemovedAt<T>(s: seq<T>, i: nat, k: nat)
    requires i < |s| && k < |s| - 1
    ensures |Removed(s, i)| == |s| - 1 && Removed(s, i)[k] == if k < i then s[k] else s[k + 1]
    ensures |RemovedFast(s, i)| == |s| - 1 && RemovedFast(s, i)[k] == if k == i then s[|s| - 1] else s[k]
  {}

  lemma SwappedAt<T>(s: seq<T>, i: nat, j: nat, k: nat)
    requires i < |s| && j < |s| && k < |s|
    ensures |Swapped(s, i, j)| == |s|
    ensures Swapped(s, i, j)[k] == if k == i then s[j] else if k == j then s[i] else s[k]
  {}

  lemma RemoveUndoesInsert<T>(s: seq<T>, i: nat, x: T)
    requires i <= |s|
    ensures |Inserted(s, i, x)| == |s| + 1 && Inserted(s, i, x)[i] == x && Removed(Inserted(s, i, x), i) == s
  {
    var t := Inserted(s, i, x);
    assert t[..i] == s[..i] && t[i + 1..] == s[i..];
  }

  lemma InsertUndoesRemove<T>(s: seq<T>, i: nat)
    requires i < |s|
    ensures Inserted(Removed(s, i), i, s[i]) == s
  {
    var t := Removed(s, i);
    assert t[..i] == s[..i] && t[i..] == s[i + 1..];
  }

  /** Both removals take away the same one element. */
  lemma RemovalsAgree<T>(s: seq<T>, i: nat)
    requires i < |s|
    ensures multiset(Removed(s, i)) == multiset(s) - multiset{s[i]} == multiset(RemovedFast(s, i))
  {
    var last := |s| - 1;
    OneApart(s, i);
    if i < last {
      var front, back := s[..i], s[i + 1..last];
      assert s[i + 1..] == back + [s[last]];
      assert RemovedFast(s, i) == front + [s[last]] + back;
      assert multiset(Removed(s, i)) == multiset(front) + (multiset(back) + multiset([s[last]]));
      assert multiset(RemovedFast(s, i)) == multiset(front) + multiset([s[last]]) + multiset(back);
    } else {
      assert Removed(s, i) == RemovedFast(s, i);
    }
  }

  lemma OneApart<T>(s: seq<T>, i: nat)
    requires i < |s|
    ensures multiset(Removed(s, i)) == multiset(s) - multiset{s[i]}
  {
    assert s == s[..i] + [s[i]] + s[i + 1..];
    assert multiset(s) == multiset(s[..i]) + multiset([s[i]]) + multiset(s[i + 1..]);
    assert multiset(Removed(s, i)) == multiset(s[..i]) + multiset(s[i + 1..]);
  }

  lemma SwapTwice<T>(s: seq<T>, i: nat, j: nat)
    requires i < |s| && j < |s|
    ensures multiset(Swapped(s, i, j)) == multiset(s)
    ensures Swapped(Swapped(s, i, j), i, j) == s
  {}

  // ---- Runs ----

  /** The operations that change the sequence, with positions as the caller writes them. */
  datatype Op<T> =
    | Push(x: T)
    | Pop
    | Add(x: T, pos: int)
    | Del(pos: int)
    | DelFast(pos: int)
    | Swap(pos1: int, pos2: int)

  predicate Allowed<T>(s: seq<T>, op: Op<T>) {
    match op
    case Push(_) => true
    case Pop => |s| > 0
    case Add(_, pos) => 0 <= Index(|s|, pos) <= |s|
    case Del(pos) => 0 <= Index(|s|, pos) < |s|
    case DelFast(pos) => 0 <= Index(|s|, pos) < |s|
    case Swap(i, j) => 0 <= Index(|s|, i) < |s| && 0 <= Index(|s|, j) < |s|
  }

  function Apply<T>(s: seq<T>, op: Op<T>): seq<T>
    requires Allowed(s, op)
  {
    match op
    case Push(x) => s + [x]
    case Pop => s[..|s| - 1]
    case Add(x, pos) => Inserted(s, Index(|s|, pos), x)
    case Del(pos) => Removed(s, Index(|s|, pos))
    case DelFast(pos) => RemovedFast(s, Index(|s|, pos))
    case Swap(i, j) => Swapped(s, Index(|s|, i), Index(|s|, j))
  }

  /** The positions there are, from either end; only an insertion may be behind the last element. */
  lemma Positions<T>(s: seq<T>, pos: int, other: int, x: T)
    ensures Allowed(s, Op<T>.Del(pos)) <==> -|s| <= pos < |s|
    ensures Allowed(s, Op<T>.DelFast(pos)) <==> -|s| <= pos < |s|
    ensures Allowed(s, Op.Add(x, pos)) <==> -|s| <= pos <= |s|
    ensures Allowed(s, Op<T>.Swap(pos, other)) <==> -|s| <= pos < |s| && -|s| <= other < |s|
  {}

  /** Position -k is the k-th from the end, for every operation. */
  lemma FromTheEnd<T>(s: seq<T>, k: int, other: int, x: T)
    requires 1 <= k <= |s| && -|s| <= other < |s|
    ensures Apply(s, Op<T>.Del(-k)) == Apply(s, Op<T>.Del(|s| - k))
    ensures Apply(s, Op<T>.DelFast(-k)) == Apply(s, Op<T>.DelFast(|s| - k))
    ensures Apply(s, Op.Add(x, -k)) == Apply(s, Op.Add(x, |s| - k))
    ensures Apply(s, Op<T>.Swap(-k, other)) == Apply(s, Op<T>.Swap(|s| - k, other))
    ensures Apply(s, Op<T>.Swap(other, -k)) == Apply(s, Op<T>.Swap(other, |s| - k))
  {
    hide Inserted, Removed, RemovedFast, Swapped;
  }

  /** Position -1 is the last element: removing there is popping, and push puts its element there. */
  lemma LastIsMinusOne<T>(s: seq<T>, x: T)
    ensures s != [] ==> Apply(s, Op<T>.Del(-1)) == Apply(s, Op<T>.DelFast(-1)) == Apply(s, Op<T>.Pop) == s[..|s| - 1]
    ensures Apply(s, Op.Push(x)) == Apply(s, Op.Add(x, |s|)) == s + [x]
    ensures Apply(Apply(s, Op.Push(x)), Op<T>.Del(-1)) == s
  {}

  predicate AllAllowed<T>(s: seq<T>, ops: seq<Op<T>>)
    decreases |ops|
  {
    ops == [] || (Allowed(s, ops[0]) && AllAllowed(Apply(s, ops[0]), ops[1..]))
  }

  function ApplyAll<T>(s: seq<T>, ops: seq<Op<T>>): seq<T>
    requires AllAllowed(s, ops)
    decreases |ops|
  {
    if ops == [] then s else ApplyAll(Apply(s, ops[0]), ops[1..])
  }

  method Perform<T(0)>(a: Array<T>, op: Op<T>)
    requires a.Valid() && Allowed(a.Contents(), op)
    modifies a, a.ptr
    ensures a.Valid() && (a.ptr == old(a.ptr) || fresh(a.ptr))
    ensures a.Contents() == Apply(old(a.Contents()), op)
  {
    match op {
      case Push(x) => a.PushBack(x);
      case Pop => a.PopBack();
      case Add(x, pos) => a.Add(x, pos);
      case Del(pos) => a.Del(pos);
      case DelFast(pos) => a.DelNoMove(pos);
      case Swap(i, j) => a.Swap(i, j);
    }
  }

  /** Any run of operations on the array is the same run on the sequence. */
  method PerformAll<T(0)>(a: Array<T>, ops: seq<Op<T>>)
    requires a.Valid() && AllAllowed(a.Contents(), ops)
    modifies a, a.ptr
    ensures a.Valid() && a.Contents() == ApplyAll(old(a.Contents()), ops)
  {
    for i := 0 to |ops|
      invariant a.Valid() && (a.ptr == old(a.ptr) || fresh(a.ptr))
      invariant AllAllowed(a.Contents(), ops[i..])
      invariant ApplyAll(a.Contents(), ops[i..]) == ApplyAll(old(a.Contents()), ops)
    {
      assert ops[i..][1..] == ops[i + 1..];
      Perform(a, ops[i]);
    }
  }
}
