/** The growable contiguous buffer of `include/vector/vector.h`.

    The three positions `begin_`, `end_` and `capacity_` of the source become an
    array `data` (the allocation, `data.Length` is the capacity) and a count
    `size` (`end_ - begin_`).  Slots at and beyond `size` stand for raw,
    unconstructed memory; they hold whatever value Dafny initialised them with. */
module Vector {
  import opened Outcomes

  /** The capacity `push_back` and `emplace_back` reallocate to when the buffer
      is full: 1 for an empty allocation, twice the old capacity otherwise. */
  function GrownCapacity(cap: nat): (r: nat)
    ensures r > cap && r <= 2 * cap + 1
  {
    if cap == 0 then 1 else 2 * cap
  }

  /** The capacity of a default-constructed vector after `n` calls of
      `push_back`. */
  function CapacityAfterPushes(n: nat): nat
  {
    if n == 0 then 0
    else
      var c := CapacityAfterPushes(n - 1);
      if n - 1 == c then GrownCapacity(c) else c
  }

  /** After `n > 0` pushes the capacity is at least `n` and less than
      `2 * n`. */
  lemma {:induction false} CapacityAfterPushesBounds(n: nat)
    requires n > 0
    ensures n <= CapacityAfterPushes(n) < 2 * n
  {
    if n > 1 {
      CapacityAfterPushesBounds(n - 1);
    }
  }

  /** A slot of an allocation as seen through a reference into it: still
      holding an element, or handed back by `deallocate`. */
  datatype Slot<T> = Live(value: T) | Released

  /** What `push_back(value)` reads when `value` refers to element `i` of a
      vector holding `xs` in `cap` slots, in the order the code runs: when
      the vector is full, `reallocate` moves and destroys every element and
      deallocates the old buffer first, and only then is the reference read
      by `construct_at(end_, value)`. */
  function ReadOwnElementAsWritten<T>(xs: seq<T>, cap: nat, i: nat): (s: Slot<T>)
    requires i < |xs| <= cap
    ensures s.Live? <==> |xs| < cap
    ensures s.Live? ==> s.value == xs[i]
  {
    var buffer := seq(|xs|, k requires 0 <= k < |xs| => Live(xs[k]));
    var afterGrow := if |xs| == cap then seq(|xs|, _ => Released) else buffer;
    afterGrow[i]
  }

  /** `v.push_back(v[0])` on a vector of one element and capacity one reads
      the released old buffer. */
  lemma PushBackOwnElementReadsReleased<T>(x: T)
    ensures ReadOwnElementAsWritten([x], 1, 0) == Released
  {
  }

  class Vector<T(0)> {
    var data: array<T>
    var size: nat

    /** `begin_ <= end_ <= capacity_`. */
    ghost predicate Valid()
      reads this
    {
      size <= data.Length
    }

    /** The live elements `[begin_, end_)`. */
    ghost function Elements(): seq<T>
      reads this, data
      requires Valid()
    {
      data[..size]
    }

    /** `size()`: the number of live elements. */
    function Size(): (n: nat)
      reads this, data
      requires Valid()
      ensures n == |Elements()| && n <= Capacity()
    {
      size
    }

    /** `capacity()`: the length of the allocation. */
    function Capacity(): (c: nat)
      reads this, data
      ensures Valid() ==> |Elements()| <= c
    {
      data.Length
    }

    /** `vector()`: no allocation yet. */
    constructor ()
      ensures Valid() && fresh(data)
      ensures Elements() == [] && Capacity() == 0
    {
      data := new T[0];
      size := 0;
    }

    /** `vector(n, value)`: an allocation of exactly `n` slots, all holding
        `value`. */
    constructor Fill(n: nat, value: T)
      ensures Valid() && fresh(data)
      ensures Elements() == seq(n, _ => value) && Capacity() == n
    {
      var a := new T[n];
      for i := 0 to n
        invariant forall j :: 0 <= j < i ==> a[j] == value
      {
        a[i] := value;
      }
      data := a;
      size := n;
    }

    /** The copy constructor: a fresh allocation of the same capacity holding
        copies of the other vector's elements in order. */
    constructor Copy(other: Vector<T>)
      requires other.Valid()
      ensures Valid() && fresh(data)
      ensures Elements() == other.Elements() && Capacity() == other.Capacity()
    {
      var a := new T[other.data.Length];
      var i := 0;
      while i < other.size
        invariant 0 <= i <= other.size
        invariant a[..i] == other.data[..i]
      {
        a[i] := other.data[i];
        i := i + 1;
      }
      data := a;
      size := other.size;
    }

    /** The move constructor: takes over the other vector's allocation and
        leaves it with no allocation at all. */
    constructor MoveFrom(other: Vector<T>)
      requires other.Valid()
      modifies other
      ensures Valid() && other.Valid()
      ensures data == old(other.data) && size == old(other.size)
      ensures Elements() == old(other.Elements())
      ensures other.Elements() == [] && other.Capacity() == 0
    {
      data := other.data;
      size := other.size;
      new;
      other.data := new T[0];
      other.size := 0;
    }

    /** `swap`: the two vectors exchange allocations, sizes and hence
        contents and capacities. */
    method Swap(other: Vector<T>)
      requires Valid() && other.Valid()
      modifies this, other
      ensures Valid() && other.Valid()
      ensures data == old(other.data) && size == old(other.size)
      ensures other.data == old(data) && other.size == old(size)
      ensures Elements() == old(other.Elements()) && other.Elements() == old(Elements())
      ensures Capacity() == old(other.Capacity()) && other.Capacity() == old(Capacity())
    {
      var d, n := data, size;
      data, size := other.data, other.size;
      other.data, other.size := d, n;
    }

    /** `reallocate`: moves the live elements, in order, into a fresh
        allocation of exactly `newCapacity` slots. */
    method Reallocate(newCapacity: nat)
      requires Valid() && size <= newCapacity
      modifies this
      ensures Valid() && fresh(data)
      ensures Capacity() == newCapacity && size == old(size)
      ensures Elements() == old(Elements())
    {
      var a := new T[newCapacity];
      var i := 0;
      while i < size
        invariant data == old(data) && size == old(size) && Valid()
        invariant 0 <= i <= size
        invariant a[..i] == data[..i]
      {
        a[i] := data[i];
        i := i + 1;
      }
      data := a;
    }

    /** `reserve(n)`: nothing happens unless `n` exceeds the capacity; then the
        allocation is replaced by one of exactly `n` slots.  (The source writes
        the loop of `reallocate` out again.) */
    method Reserve(n: nat)
      requires Valid()
      modifies this
      ensures Valid() && size == old(size) && Elements() == old(Elements())
      ensures n <= old(Capacity()) ==> data == old(data)
      ensures n > old(Capacity()) ==> fresh(data) && Capacity() == n
    {
      if n <= data.Length {
        return;
      }
      Reallocate(n);
    }

    /** `shrink_to_fit`: unless the buffer is already full, the allocation is
        replaced by one of exactly `size()` slots. */
    method ShrinkToFit()
      requires Valid()
      modifies this
      ensures Valid() && size == old(size) && Elements() == old(Elements())
      ensures Capacity() == size
      ensures old(size) == old(Capacity()) ==> data == old(data)
    {
      if size == data.Length {
        return;
      }
      Reallocate(size);
    }

    /** `push_back(value)`: grows by `GrownCapacity` when full, then constructs
        `value` at the end. */
    method PushBack(value: T)
      requires Valid()
      modifies this, data
      ensures Valid() && Elements() == old(Elements()) + [value]
      ensures Capacity() == if old(size) == old(Capacity()) then GrownCapacity(old(Capacity())) else old(Capacity())
      ensures old(size) < old(Capacity()) ==> data == old(data)
    {
      if size == data.Length {
        Reallocate(GrownCapacity(data.Length));
      }
      data[size] := value;
      size := size + 1;
    }

    /** `emplace_back(args...)`: the element built from `args` is passed ready
        made, so this is `push_back`. */
    method EmplaceBack(value: T)
      requires Valid()
      modifies this, data
      ensures Valid() && Elements() == old(Elements()) + [value]
      ensures Capacity() == if old(size) == old(Capacity()) then GrownCapacity(old(Capacity())) else old(Capacity())
    {
      PushBack(value);
    }

    /** `push_back(v[i])` with the argument copied out before any
        reallocation, as `push_back` must do for an argument that refers into
        the vector itself: the old element `i` is appended whether or not the
        buffer grows. */
    method PushBackElement(i: nat)
      requires Valid() && i < size
      modifies this, data
      ensures Valid() && Elements() == old(Elements()) + [old(Elements())[i]]
      ensures Capacity() == if old(size) == old(Capacity()) then GrownCapacity(old(Capacity())) else old(Capacity())
    {
      var value := data[i];
      PushBack(value);
    }

    /** `pop_back`: a no-op on an empty vector, otherwise destroys the last
        element; the allocation stays. */
    method PopBack()
      requires Valid()
      modifies this
      ensures Valid() && data == old(data)
      ensures Elements() == if old(size) == 0 then old(Elements()) else old(Elements())[..old(size) - 1]
    {
      if size == 0 {
        return;
      }
      size := size - 1;
    }

    /** `clear`: destroys the elements one by one from the back; the allocation
        stays. */
    method Clear()
      requires Valid()
      modifies this
      ensures Valid() && data == old(data)
      ensures Elements() == [] && Capacity() == old(Capacity())
    {
      while size != 0
        invariant Valid() && data == old(data)
      {
        size := size - 1;
      }
    }

    /** `at(i)`: the element at index `i`, or `out_of_range` when `i >= size()`. */
    function At(i: nat): (r: Result<T>)
      reads this, data
      requires Valid()
      ensures r.Ok? <==> i < |Elements()|
      ensures r.Ok? ==> r.value == Elements()[i]
      ensures r.OutOfRange? ==> r.what == "Index is out of range"
    {
      if i >= size then OutOfRange("Index is out of range") else Ok(data[i])
    }
  }
}
