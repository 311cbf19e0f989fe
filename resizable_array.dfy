/** `ResizableArray<T>` of `src/MicroTof.h`: an owning buffer with a count of
    used slots that grows by four slots whenever an `add` finds it full.

    The C++ buffer is `malloc`ed memory; here it is a Dafny `array<T>` whose
    length is the capacity. Whether `malloc` succeeds during growth is the
    caller-supplied `allocOk`. */
module MicroTofArray {

  /** Slots added by each reallocation. */
  const GrowthStep: nat := 4

  /** Default initial capacity of the constructor. */
  const DefaultCapacity: nat := 4

  /** The capacity an array created with `initial` slots has once it holds
      `n` elements, when every growth allocation has succeeded: the least
      `initial + 4 * k` that is at least `n`. */
  function CapacityFor(initial: nat, n: nat): (cap: nat)
    ensures n <= cap && initial <= cap
    ensures (cap - initial) % GrowthStep == 0
    ensures cap > initial ==> cap - GrowthStep < n
  {
    if n <= initial then initial
    else initial + GrowthStep * ((n - initial + GrowthStep - 1) / GrowthStep)
  }

  /** One more element changes the capacity only when the array is full, and
      then by one growth step. */
  lemma CapacityForNext(initial: nat, n: nat)
    ensures CapacityFor(initial, n + 1)
            == if n == CapacityFor(initial, n) then CapacityFor(initial, n) + GrowthStep
               else CapacityFor(initial, n)
  {
    var cap, next := CapacityFor(initial, n), CapacityFor(initial, n + 1);
    var k, j := (cap - initial) / GrowthStep, (next - initial) / GrowthStep;
    assert cap == initial + GrowthStep * k;
    assert next == initial + GrowthStep * j;
  }

  class ResizableArray<T(0)> {
    /** `data_`: the buffer, whose length is `capacity_`. */
    var data: array<T>
    /** `count_`: the number of slots in use. */
    var count: nat
    /** `capacity_`: the number of slots allocated. */
    var capacity: nat
    /** The capacity the array was created with. */
    ghost var initialCapacity: nat

    /** The object invariant: the used slots fit in the buffer, and the
        capacity is the one the growth policy gives for `count` elements. */
    ghost predicate Valid()
      reads this
    {
      && data.Length == capacity
      && count <= capacity
      && capacity == CapacityFor(initialCapacity, count)
    }

    /** The elements in use, in order. */
    ghost function Elements(): seq<T>
      reads this, data
      requires Valid()
    {
      data[..count]
    }

    /** `ResizableArray(size_t initialCapacity = 4)`: an empty array over a
        fresh buffer of `initialCapacity` slots. */
    constructor (initialCapacity: nat := DefaultCapacity)
      ensures Valid() && fresh(data)
      ensures capacity == initialCapacity && count == 0 && Elements() == []
    {
      data := new T[initialCapacity];
      count := 0;
      capacity := initialCapacity;
      this.initialCapacity := initialCapacity;
    }

    /** `getCount()`: the number of elements added. */
    function GetCount(): (n: nat)
      reads this, data
      requires Valid()
      ensures n == |Elements()|
    {
      count
    }

    /** Reading through `operator[]`: the element at `index`, which the
        caller must keep below the count (the C++ does not check it). */
    function At(index: nat): (item: T)
      reads this, data
      requires Valid() && index < count
      ensures item == Elements()[index]
    {
      data[index]
    }

    /** Writing through the reference `operator[]` returns: replaces the
        element at `index` and nothing else. */
    method SetAt(index: nat, item: T)
      requires Valid() && index < count
      modifies data
      ensures Valid() && Elements() == old(Elements())[index := item]
    {
      data[index] := item;
    }

    /** `raw()`: the buffer itself, `capacity` slots long, beginning with the
        elements. */
    function Raw(): (buffer: array<T>)
      reads this, data
      requires Valid()
      ensures buffer.Length == capacity && buffer[..count] == Elements()
    {
      data
    }

    /** `add(item)`. With room left, `item` goes into the next slot of the
        same buffer. A full array first moves to a new buffer four slots
        larger holding the same elements; if that allocation fails (`allocOk`
        false) nothing changes and `item` is dropped. */
    method Add(item: T, allocOk: bool)
      requires Valid()
      modifies this, data
      ensures Valid() && initialCapacity == old(initialCapacity)
      ensures old(count) < old(capacity) ==>
        && data == old(data)
        && capacity == old(capacity)
        && Elements() == old(Elements()) + [item]
      ensures old(count) >= old(capacity) && allocOk ==>
        && fresh(data)
        && capacity == old(capacity) + GrowthStep
        && Elements() == old(Elements()) + [item]
      ensures old(count) >= old(capacity) && !allocOk ==>
        && data == old(data)
        && data[..] == old(data[..])
        && capacity == old(capacity)
        && count == old(count)
    {
      CapacityForNext(initialCapacity, count);
      if count >= capacity {
        var newCapacity := capacity + GrowthStep;
        if !allocOk {
          return;
        }
        var newData := new T[newCapacity];
        forall i | 0 <= i < count {
          newData[i] := data[i];
        }
        data := newData;
        capacity := newCapacity;
      }
      data[count] := item;
      count := count + 1;
    }
  }

  /** Default capacity then five successful adds: the first four stay in the
      original buffer, the fifth moves to a new one of capacity 8, and all
      five items are there in insertion order. */
  method GrowOnFifthAdd(a: int, b: int, c: int, d: int, e: int)
    returns (arr: ResizableArray<int>, first: array<int>)
    ensures arr.Valid() && arr.capacity == 8 && arr.GetCount() == 5
    ensures arr.Elements() == [a, b, c, d, e]
    ensures first.Length == DefaultCapacity && first != arr.Raw()
  {
    arr := new ResizableArray<int>();
    first := arr.Raw();
    arr.Add(a, true);
    arr.Add(b, true);
    arr.Add(c, true);
    arr.Add(d, true);
    assert arr.Raw() == first && arr.capacity == 4;
    arr.Add(e, true);
  }

  /** An array created with `initial` slots after each of `items` is added
      with every allocation succeeding: it holds exactly `items`, in order of
      addition, at the capacity the growth policy gives for that many
      elements. */
  method AddAllFromEmpty<T(0)>(initial: nat, items: seq<T>) returns (arr: ResizableArray<T>)
    ensures arr.Valid() && arr.GetCount() == |items|
    ensures forall i :: 0 <= i < |items| ==> arr.At(i) == items[i]
    ensures arr.capacity == CapacityFor(initial, |items|)
  {
    arr := new ResizableArray<T>(initial);
    var k := 0;
    while k < |items|
      invariant 0 <= k <= |items|
      invariant fresh(arr) && fresh(arr.data)
      invariant arr.Valid() && arr.initialCapacity == initial
      invariant arr.Elements() == items[..k]
    {
      arr.Add(items[k], true);
      assert items[..k + 1] == items[..k] + [items[k]];
      k := k + 1;
    }
    assert items[..k] == items;
  }
}
