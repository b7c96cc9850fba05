/** `static_vector<T, MaxSize>` (src/common/static_vector.hpp): a vector with a fixed
    capacity `MaxSize` whose elements live in an in-object buffer.  The buffer is an
    `array` of length `MaxSize`; `size` says how many of its leading slots hold live
    elements.  A default-constructed `T()` is passed explicitly as `zero`, since the
    model has no default constructors. */
module StaticVectors {
  import opened Wrappers

  class StaticVector<T(0)> {
    const MaxSize: nat
    const data: array<T>
    var size: nat

    ghost predicate Valid()
      reads this
    {
      data.Length == MaxSize && size <= MaxSize
    }

    /** The live elements, in order. */
    ghost function Contents(): seq<T>
      reads this, data
      requires Valid()
    {
      data[..size]
    }

    /** `static_vector()`: no elements. */
    constructor (maxSize: nat)
      ensures Valid() && fresh(data)
      ensures MaxSize == maxSize && Contents() == []
    {
      MaxSize := maxSize;
      data := new T[maxSize];
      size := 0;
    }

    /** `static_vector(count)` and `static_vector(count, value)`: `count` copies of
        `value` (of `T()` for the first form); `count` may not exceed the capacity. */
    constructor Filled(maxSize: nat, count: nat, value: T)
      requires count <= maxSize
      ensures Valid() && fresh(data)
      ensures MaxSize == maxSize && Contents() == seq(count, _ => value)
    {
      MaxSize := maxSize;
      var buf := new T[maxSize];
      var i := 0;
      while i < count
        invariant 0 <= i <= count
        invariant forall k :: 0 <= k < i ==> buf[k] == value
      {
        buf[i] := value;
        i := i + 1;
      }
      data := buf;
      size := count;
    }

    /** `static_vector(std::initializer_list<T>)`: the listed elements in order. */
    constructor FromList(maxSize: nat, init: seq<T>)
      requires |init| <= maxSize
      ensures Valid() && fresh(data)
      ensures MaxSize == maxSize && Contents() == init
    {
      MaxSize := maxSize;
      var buf := new T[maxSize];
      var i := 0;
      while i < |init|
        invariant 0 <= i <= |init|
        invariant buf[..i] == init[..i]
      {
        buf[i] := init[i];
        i := i + 1;
      }
      data := buf;
      size := |init|;
    }

    /** Copy constructor: an independent vector with the same elements. */
    constructor Copy(o: StaticVector<T>)
      requires o.Valid()
      ensures Valid() && fresh(data)
      ensures MaxSize == o.MaxSize && Contents() == o.Contents()
    {
      MaxSize := o.MaxSize;
      var buf := new T[o.MaxSize];
      var i := 0;
      while i < o.size
        invariant 0 <= i <= o.size
        invariant buf[..i] == o.data[..i]
      {
        buf[i] := o.data[i];
        i := i + 1;
      }
      data := buf;
      size := o.size;
    }

    /** Move constructor: takes over the elements and leaves the source empty. */
    constructor Move(o: StaticVector<T>)
      requires o.Valid()
      modifies o
      ensures Valid() && fresh(data)
      ensures MaxSize == o.MaxSize && Contents() == old(o.Contents())
      ensures o.Valid() && o.Contents() == []
    {
      MaxSize := o.MaxSize;
      var buf := new T[o.MaxSize];
      var i := 0;
      while i < o.size
        invariant o.Valid() && o.size == old(o.size)
        invariant 0 <= i <= o.size
        invariant buf[..i] == o.data[..i]
      {
        buf[i] := o.data[i];
        i := i + 1;
      }
      data := buf;
      size := o.size;
      o.size := 0;
    }

    /** Copy assignment; assigning a vector to itself changes nothing. */
    method CopyAssign(o: StaticVector<T>)
      requires Valid() && o.Valid() && o.MaxSize == MaxSize
      requires o != this ==> o.data != data
      modifies this`size, data
      ensures Valid()
      ensures Contents() == old(o.Contents())
      ensures o.Valid() && o.Contents() == old(o.Contents())
    {
      if o != this {
        size := 0;
        var i := 0;
        while i < o.size
          invariant Valid() && o.Valid() && o.size == old(o.size)
          invariant 0 <= i <= o.size && size == 0
          invariant data[..i] == o.data[..i]
          invariant o.data[..o.size] == old(o.data[..o.size])
        {
          data[i] := o.data[i];
          i := i + 1;
        }
        size := o.size;
      }
    }

    /** Move assignment: takes the elements of `o` and leaves `o` empty; assigning a
        vector to itself changes nothing. */
    method MoveAssign(o: StaticVector<T>)
      requires Valid() && o.Valid() && o.MaxSize == MaxSize
      requires o != this ==> o.data != data
      modifies this`size, data, o`size
      ensures Valid() && o.Valid()
      ensures Contents() == old(o.Contents())
      ensures o != this ==> o.Contents() == []
    {
      if o != this {
        size := 0;
        var i := 0;
        while i < o.size
          invariant Valid() && o.Valid() && o.size == old(o.size)
          invariant 0 <= i <= o.size && size == 0
          invariant data[..i] == o.data[..i]
          invariant o.data[..o.size] == old(o.data[..o.size])
        {
          data[i] := o.data[i];
          i := i + 1;
        }
        size := o.size;
        o.size := 0;
      }
    }

    /** `at(pos)`: the element at `pos`, or `std::out_of_range` when `pos >= size()`. */
    function At(pos: nat): (r: Result<T>)
      reads this, data
      requires Valid()
      ensures r.Ok? <==> pos < |Contents()|
      ensures r.Ok? ==> r.value == Contents()[pos]
      ensures r.Err? ==> r.error == OutOfRange("static_vector::at")
    {
      if pos >= size then Err(OutOfRange("static_vector::at")) else Ok(data[pos])
    }

    /** `operator[]` for reading; the index must be below `size()`. */
    function Get(pos: nat): (x: T)
      reads this, data
      requires Valid() && pos < size
      ensures x == Contents()[pos]
    {
      data[pos]
    }

    /** Assignment through the reference `operator[]` returns. */
    method Set(pos: nat, x: T)
      requires Valid() && pos < size
      modifies data
      ensures Valid() && Contents() == old(Contents())[pos := x]
    {
      data[pos] := x;
    }

    /** `front()`; the vector must not be empty. */
    function Front(): (x: T)
      reads this, data
      requires Valid() && size > 0
      ensures x == Contents()[0]
    {
      data[0]
    }

    /** `back()`; the vector must not be empty. */
    function Back(): (x: T)
      reads this, data
      requires Valid() && size > 0
      ensures x == Contents()[|Contents()| - 1]
    {
      data[size - 1]
    }

    /** `empty()`. */
    function Empty(): (b: bool)
      reads this, data
      requires Valid()
      ensures b <==> Contents() == []
    {
      size == 0
    }

    /** `capacity()` and `max_size()`: both are the template argument `MaxSize`,
        which bounds `size()`. */
    function Capacity(): (n: nat)
      reads this, data
      requires Valid()
      ensures |Contents()| <= n && n == data.Length
    {
      MaxSize
    }

    /** `clear()`: no elements remain. */
    method Clear()
      requires Valid()
      modifies this`size
      ensures Valid() && Contents() == []
    {
      size := 0;
    }

    /** `push_back(value)` (and `emplace_back`, which constructs the same value in
        place): the capacity must not be exhausted; `value` becomes the new last
        element and the earlier elements are unchanged. */
    method PushBack(value: T)
      requires Valid() && size < MaxSize
      modifies this`size, data
      ensures Valid() && Contents() == old(Contents()) + [value]
    {
      data[size] := value;
      size := size + 1;
    }

    /** `pop_back()`: the vector must not be empty; the last element is removed. */
    method PopBack()
      requires Valid() && size > 0
      modifies this`size
      ensures Valid() && Contents() == old(Contents())[..old(size) - 1]
    {
      size := size - 1;
    }

    /** `resize(count)`: `count` may not exceed the capacity.  Elements below
        `min(size, count)` are kept; new slots hold `T()` (given as `zero`). */
    method Resize(count: nat, zero: T)
      requires Valid() && count <= MaxSize
      modifies this`size, data
      ensures Valid() && |Contents()| == count
      ensures count <= old(size) ==> Contents() == old(Contents())[..count]
      ensures count > old(size) ==> Contents() == old(Contents()) + seq(count - old(size), _ => zero)
    {
      if count > size {
        var i := size;
        while i < count
          invariant size <= i <= count
          invariant data[..size] == old(data[..size])
          invariant forall k :: size <= k < i ==> data[k] == zero
        {
          data[i] := zero;
          i := i + 1;
        }
      }
      size := count;
    }

    /** `swap(other)`: the common prefix is swapped element by element, then the
        longer vector's tail is moved across and the longer vector is shrunk.  Both
        vectors end with the other's former contents. */
    method Swap(other: StaticVector<T>)
      requires Valid() && other.Valid() && other.MaxSize == MaxSize
      requires other != this ==> other.data != data
      modifies this`size, data, other`size, other.data
      ensures Valid() && other.Valid()
      ensures Contents() == old(other.Contents())
      ensures other.Contents() == old(Contents())
    {
      if other == this {
        return;
      }
      ghost var mine, theirs := Contents(), other.Contents();
      var m := if size < other.size then size else other.size;
      SwapPrefix(other, m);
      if size < other.size {
        assert Contents() == theirs[..m];
        assert other.data[m..other.size] == theirs[m..];
        assert other.Contents()[m..] == theirs[m..] && other.Contents()[..m] == mine;
        TakeTail(other, m);
        assert Contents() == theirs[..m] + theirs[m..];
      } else if size > other.size {
        assert other.Contents() == mine[..m];
        assert data[m..size] == mine[m..];
        assert Contents()[m..] == mine[m..] && Contents()[..m] == theirs;
        other.TakeTail(this, m);
        assert other.Contents() == mine[..m] + mine[m..];
      }
    }

    /** The first half of `swap`: the first `m` slots of the two buffers are
        exchanged and every other slot keeps its value. */
    method SwapPrefix(other: StaticVector<T>, m: nat)
      requires Valid() && other.Valid() && other != this && other.data != data
      requires m <= size && m <= other.size
      modifies data, other.data
      ensures data[..m] == old(other.data[..m]) && other.data[..m] == old(data[..m])
      ensures data[m..] == old(data[m..]) && other.data[m..] == old(other.data[m..])
    {
      var i := 0;
      while i < m
        invariant 0 <= i <= m
        invariant data[..i] == old(other.data[..i]) && other.data[..i] == old(data[..i])
        invariant data[i..] == old(data[i..]) && other.data[i..] == old(other.data[i..])
      {
        data[i], other.data[i] := other.data[i], data[i];
        i := i + 1;
      }
    }

    /** The second half of `swap`, for a vector `m` long and a longer `other`:
        `other`'s elements from `m` on are pushed onto this vector, and `other` is
        cut back to its first `m`. */
    method TakeTail(other: StaticVector<T>, m: nat)
      requires Valid() && other.Valid() && other != this && other.data != data && other.MaxSize == MaxSize
      requires size == m <= other.size
      modifies this`size, data, other`size
      ensures Valid() && other.Valid()
      ensures Contents() == old(Contents()) + old(other.Contents())[m..]
      ensures other.Contents() == old(other.Contents())[..m]
    {
      ghost var mine, theirs := Contents(), other.Contents();
      var j := m;
      while j < other.size
        invariant other.Valid() && other.size == |theirs| && other.data[..other.size] == theirs
        invariant m <= j <= other.size && size == j
        invariant Valid()
        invariant Contents() == mine + theirs[m..j]
      {
        assert theirs[m..j + 1] == theirs[m..j] + [theirs[j]];
        PushBack(other.data[j]);
        j := j + 1;
      }
      other.size := m;
    }
  }
}
