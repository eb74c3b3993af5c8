/** The LIFO adapter of `include/stack/stack.h`: an owned buffer `data_` with
    `size_` live elements and `capacity_` slots.  Here the buffer is an array
    `data` whose length is the capacity; index 0 is the bottom of the stack.
    Slots at and beyond `size` stand for raw, unconstructed memory. */
module Stack {
  import opened Outcomes
  import opened Orders

  /** `INITIAL_CAPACITY`: the first allocation `grow` makes. */
  const InitialCapacity: nat := 16

  /** The capacity `grow` moves to: `INITIAL_CAPACITY` from nothing, otherwise
      twice the current capacity. */
  function GrownCapacity(cap: nat): (r: nat)
    ensures r > cap && r >= 2 * cap
    ensures cap == 0 ==> r == InitialCapacity
  {
    if cap == 0 then InitialCapacity else cap * 2
  }

  /** The capacity of a default-constructed stack after `n` calls of
      `push`. */
  function CapacityAfterPushes(n: nat): nat
  {
    if n == 0 then 0
    else
      var c := CapacityAfterPushes(n - 1);
      if n - 1 == c then GrownCapacity(c) else c
  }

  /** `std::lexicographical_compare(a, b)` with `lt` as `operator<`: `a`
      comes first when it is a proper prefix of `b` or when the first pair of
      elements that are not equivalent has `a`'s element smaller. */
  function LexLess<T>(a: seq<T>, b: seq<T>, lt: (T, T) -> bool): bool
  {
    if |b| == 0 then false
    else if |a| == 0 then true
    else if lt(a[0], b[0]) then true
    else if lt(b[0], a[0]) then false
    else LexLess(a[1..], b[1..], lt)
  }

  /** No sequence is lexicographically less than itself. */
  lemma {:induction false} LexLessIrreflexive<T>(a: seq<T>, lt: (T, T) -> bool)
    requires forall x :: !lt(x, x)
    ensures !LexLess(a, a, lt)
  {
    if |a| > 0 {
      LexLessIrreflexive(a[1..], lt);
    }
  }

  /** Lexicographic order is transitive when `lt` is a strict weak ordering. */
  lemma {:induction false} LexLessTransitive<T(!new)>(a: seq<T>, b: seq<T>, c: seq<T>, lt: (T, T) -> bool)
    requires StrictWeakOrder(lt)
    requires LexLess(a, b, lt) && LexLess(b, c, lt)
    ensures LexLess(a, c, lt)
  {
    if |a| > 0 {
      assert |b| > 0 && |c| > 0;
      if lt(a[0], b[0]) {
        if !lt(b[0], c[0]) && !lt(a[0], c[0]) {
          NotLessTransitive(lt, b[0], c[0], a[0]);
        }
      } else if lt(b[0], c[0]) {
        if !lt(a[0], c[0]) {
          NotLessTransitive(lt, c[0], a[0], b[0]);
        }
      } else {
        assert Equiv(lt, a[0], b[0]) && Equiv(lt, b[0], c[0]);
        assert Equiv(lt, a[0], c[0]);
        LexLessTransitive(a[1..], b[1..], c[1..], lt);
      }
    }
  }

  /** At most one of two sequences is lexicographically less than the other. */
  lemma {:induction false} LexLessAsymmetric<T(!new)>(a: seq<T>, b: seq<T>, lt: (T, T) -> bool)
    requires StrictWeakOrder(lt)
    requires LexLess(a, b, lt)
    ensures !LexLess(b, a, lt)
  {
    if |a| > 0 && !lt(a[0], b[0]) {
      LexLessAsymmetric(a[1..], b[1..], lt);
    }
  }

  class Stack<T(0, ==)> {
    var data: array<T>
    var size: nat

    /** `size_ <= capacity_`. */
    ghost predicate Valid()
      reads this
    {
      size <= data.Length
    }

    /** The stacked elements, bottom first. */
    ghost function Elements(): seq<T>
      reads this, data
      requires Valid()
    {
      data[..size]
    }

    function Size(): (n: nat)
      reads this, data
      requires Valid()
      ensures n == |Elements()| && n <= Capacity()
    {
      size
    }

    /** `capacity()`: how many elements fit before the next `grow`. */
    function Capacity(): (c: nat)
      reads this, data
      ensures Valid() ==> |Elements()| <= c
    {
      data.Length
    }

    function Empty(): (b: bool)
      reads this, data
      requires Valid()
      ensures b <==> Elements() == []
    {
      size == 0
    }

    /** `stack()`: `data_ == nullptr`, no capacity. */
    constructor ()
      ensures Valid() && fresh(data)
      ensures Elements() == [] && Capacity() == 0
    {
      data := new T[0];
      size := 0;
    }

    /** `stack(count)`: empty, with `reserve(count)` done. */
    constructor WithCapacity(count: nat)
      ensures Valid() && fresh(data)
      ensures Elements() == [] && Capacity() == count
    {
      data := new T[0];
      size := 0;
      new;
      Reserve(count);
    }

    /** `stack(count, value)`: `reserve(count)`, then `count` pushes. */
    constructor Fill(count: nat, value: T)
      ensures Valid() && fresh(data)
      ensures Elements() == seq(count, _ => value) && Capacity() == count
    {
      data := new T[0];
      size := 0;
      new;
      Reserve(count);
      for i := 0 to count
        invariant Valid() && fresh(data) && Capacity() == count
        invariant Elements() == seq(i, _ => value)
      {
        Push(value);
      }
    }

    /** `stack(first, last)` and `stack(init)`: the elements pushed in order. */
    constructor FromSeq(xs: seq<T>)
      ensures Valid() && fresh(data)
      ensures Elements() == xs && Capacity() == CapacityAfterPushes(|xs|)
    {
      data := new T[0];
      size := 0;
      new;
      for i := 0 to |xs|
        invariant Valid() && fresh(data)
        invariant Elements() == xs[..i] && Capacity() == CapacityAfterPushes(i)
      {
        Push(xs[i]);
      }
    }

    /** The copy constructor: `reserve(other.size_)`, then copies of the
        elements in order. */
    constructor Copy(other: Stack<T>)
      requires other.Valid()
      ensures Valid() && fresh(data)
      ensures Elements() == other.Elements() && Capacity() == other.size
    {
      data := new T[0];
      size := 0;
      new;
      Reserve(other.size);
      while size < other.size
        invariant Valid() && fresh(data) && data.Length == other.size
        invariant Elements() == other.data[..size]
      {
        data[size] := other.data[size];
        size := size + 1;
      }
    }

    /** The move constructor: takes over `data_`, `size_` and `capacity_`,
        leaving the source with no buffer, `size_ == 0` and `capacity_ == 0`. */
    constructor MoveFrom(other: Stack<T>)
      requires other.Valid()
      modifies other
      ensures Valid() && other.Valid()
      ensures data == old(other.data) && Elements() == old(other.Elements())
      ensures other.Elements() == [] && other.Capacity() == 0
    {
      data := other.data;
      size := other.size;
      new;
      other.data := new T[0];
      other.size := 0;
    }

    /** The element-by-element move into a fresh buffer of `newCapacity`
        slots that `grow`, `reserve` and `shrink_to_fit` each write out. */
    method Relocate(newCapacity: nat)
      requires Valid() && size <= newCapacity
      modifies this
      ensures Valid() && fresh(data) && Capacity() == newCapacity
      ensures size == old(size) && Elements() == old(Elements())
    {
      var a := new T[newCapacity];
      for i := 0 to size
        invariant data == old(data) && size == old(size)
        invariant a[..i] == data[..i]
      {
        a[i] := data[i];
      }
      data := a;
    }

    /** `grow`: capacity 16 from nothing, otherwise double, elements kept in
        order. */
    method Grow()
      requires Valid()
      modifies this
      ensures Valid() && fresh(data)
      ensures Capacity() == GrownCapacity(old(Capacity()))
      ensures size == old(size) && Elements() == old(Elements())
    {
      Relocate(GrownCapacity(data.Length));
    }

    /** `reserve(new_cap)`: a no-op unless `new_cap` exceeds the capacity, in
        which case the capacity becomes exactly `new_cap`. */
    method Reserve(newCap: nat)
      requires Valid()
      modifies this
      ensures Valid() && size == old(size) && Elements() == old(Elements())
      ensures newCap <= old(Capacity()) ==> data == old(data)
      ensures newCap > old(Capacity()) ==> fresh(data) && Capacity() == newCap
    {
      if newCap > data.Length {
        Relocate(newCap);
      }
    }

    /** `shrink_to_fit`: when there is spare capacity the buffer is replaced
        by one of exactly `size_` slots (none at all for an empty stack). */
    method ShrinkToFit()
      requires Valid()
      modifies this
      ensures Valid() && size == old(size) && Elements() == old(Elements())
      ensures Capacity() == size
      ensures old(size) == old(Capacity()) ==> data == old(data)
    {
      if size < data.Length {
        if size == 0 {
          data := new T[0];
        } else {
          Relocate(size);
        }
      }
    }

    /** `push(value)`: grows when full, then places `value` on top. */
    method Push(value: T)
      requires Valid()
      modifies this, data
      ensures Valid() && Elements() == old(Elements()) + [value]
      ensures Top() == Ok(value)
      ensures Capacity() == if old(size) == old(Capacity()) then GrownCapacity(old(Capacity())) else old(Capacity())
      ensures old(size) < old(Capacity()) ==> data == old(data)
      ensures old(size) == old(Capacity()) ==> fresh(data)
    {
      if size == data.Length {
        Grow();
      }
      data[size] := value;
      size := size + 1;
    }

    /** `emplace(args...)`: `push` of the element built from `args` (passed
        here ready made), returning the new top. */
    method Emplace(value: T) returns (top: T)
      requires Valid()
      modifies this, data
      ensures Valid() && Elements() == old(Elements()) + [value]
      ensures top == value
      ensures Capacity() == if old(size) == old(Capacity()) then GrownCapacity(old(Capacity())) else old(Capacity())
    {
      Push(value);
      top := data[size - 1];
    }

    /** `pop()`: `out_of_range` on an empty stack, otherwise removes exactly
        the top element. */
    method Pop() returns (st: Status)
      requires Valid()
      modifies this
      ensures Valid() && data == old(data)
      ensures old(size) == 0 ==> st == Failed("stack::pop(): stack is empty") && size == old(size)
      ensures old(size) > 0 ==> st == Done && Elements() == old(Elements())[..old(size) - 1]
    {
      if size == 0 {
        return Failed("stack::pop(): stack is empty");
      }
      size := size - 1;
      st := Done;
    }

    /** `top()`: the last pushed element, or `out_of_range` when empty. */
    function Top(): (r: Result<T>)
      reads this, data
      requires Valid()
      ensures r.Ok? <==> |Elements()| > 0
      ensures r.Ok? ==> r.value == Elements()[|Elements()| - 1]
      ensures r.OutOfRange? ==> r.what == "stack::top(): stack is empty"
    {
      if size == 0 then OutOfRange("stack::top(): stack is empty") else Ok(data[size - 1])
    }

    /** `at(pos)`: element `pos` counted from the bottom, or `out_of_range`
        when `pos >= size_`. */
    function At(pos: nat): (r: Result<T>)
      reads this, data
      requires Valid()
      ensures r.Ok? <==> pos < |Elements()|
      ensures r.Ok? ==> r.value == Elements()[pos]
      ensures r.OutOfRange? ==> r.what == "stack::at(): index out of range"
    {
      if pos >= size then OutOfRange("stack::at(): index out of range") else Ok(data[pos])
    }

    /** `clear()`: destroys every element; the buffer and capacity stay. */
    method Clear()
      requires Valid()
      modifies this
      ensures Valid() && data == old(data)
      ensures Elements() == [] && Capacity() == old(Capacity())
    {
      size := 0;
    }

    /** `swap`: buffers, sizes and capacities are exchanged. */
    method Swap(other: Stack<T>)
      requires Valid() && other.Valid()
      modifies this, other
      ensures Valid() && other.Valid()
      ensures data == old(other.data) && other.data == old(data)
      ensures Elements() == old(other.Elements()) && other.Elements() == old(Elements())
    {
      var d, n := data, size;
      data, size := other.data, other.size;
      other.data, other.size := d, n;
    }

    /** `operator==`: equal sizes and pointwise equal elements. */
    function Equal(other: Stack<T>): (r: bool)
      reads this, data, other, other.data
      requires Valid() && other.Valid()
      ensures r <==> Elements() == other.Elements()
    {
      size == other.size && forall i :: 0 <= i < size ==> data[i] == other.data[i]
    }

    /** `operator<`: `std::lexicographical_compare` over both stacks, bottom
        first, with `lt` standing for `T`'s `operator<`. */
    function Less(other: Stack<T>, lt: (T, T) -> bool): (r: bool)
      reads this, data, other, other.data
      requires Valid() && other.Valid()
      ensures r == LexLess(Elements(), other.Elements(), lt)
    {
      LessFrom(other, lt, 0)
    }

    /** The comparison loop of `std::lexicographical_compare` from index `i`. */
    function LessFrom(other: Stack<T>, lt: (T, T) -> bool, i: nat): (r: bool)
      reads this, data, other, other.data
      requires Valid() && other.Valid()
      requires i <= size && i <= other.size
      ensures r == LexLess(data[i..size], other.data[i..other.size], lt)
      decreases other.size - i
    {
      if i == other.size then false
      else if i == size || lt(data[i], other.data[i]) then true
      else if lt(other.data[i], data[i]) then false
      else
        assert data[i..size][1..] == data[i + 1..size];
        assert other.data[i..other.size][1..] == other.data[i + 1..other.size];
        LessFrom(other, lt, i + 1)
    }
  }
}
