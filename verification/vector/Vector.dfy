// The vector: a flat array that doubles when it is full.
module Vector {
  import opened WeakOrder
  import opened Quicksort
  import opened Filter
  import opened Shifting

  class Vector<T(0)> {
    var value: array<T>
    var size: nat
    var capacity: nat
    const zero: T
    // Elements of one byte: the array keeps a cell more than its capacity.
    const bytes: bool

    // The cells behind the elements of a vector of bytes are zero: it ends like a string.
    ghost predicate Valid()
      reads this, value
    {
      && size <= capacity
      && value.Length == (if bytes && value.Length > 0 then capacity + 1 else capacity)
      && (bytes ==> forall i :: size <= i < value.Length ==> value[i] == zero)
    }

    ghost function Contents(): (s: seq<T>)
      requires Valid()
      reads this, value
      ensures |s| == size
    {
      value[..size]
    }

    constructor (zero: T, bytes: bool)
      ensures Valid() && Contents() == [] && fresh(value) && this.bytes == bytes
    {
      value := new T[0];
      size, capacity := 0, 0;
      this.zero, this.bytes := zero, bytes;
    }

    // Moves the elements to an array of the new capacity.
    method Fit(capacity: nat)
      requires Valid() && size <= capacity
      modifies `value, `capacity
      ensures Valid() && fresh(value) && this.capacity == capacity && Contents() == old(Contents())
      ensures bytes ==> value.Length == capacity + 1
    {
      var overall := if bytes then capacity + 1 else capacity;
      var a := new T[overall];
      var kept := if value.Length < overall then value.Length else overall;
      for i := 0 to kept
        modifies a
        invariant forall j :: 0 <= j < i ==> a[j] == value[j]
      {
        a[i] := value[i];
      }
      if bytes {
        Zero(a, this.capacity);
      }
      value := a;
      this.capacity := capacity;
    }

    // Clears the cells from `start` on.
    method Zero(a: array<T>, start: nat)
      modifies a
      ensures forall i :: 0 <= i < a.Length ==> a[i] == if i < start then old(a[i]) else zero
    {
      var i := start;
      while i < a.Length
        modifies a
        invariant i >= start
        invariant forall j :: 0 <= j < a.Length ==> a[j] == if start <= j < i then zero else old(a[j])
      {
        a[i] := zero;
        i := i + 1;
      }
    }

    // Makes room for at least `capacity` elements, never losing any. Only a vector of bytes
    // can shrink, and down to its size at most.
    method Reserve(capacity: nat)
      requires Valid()
      modifies `value, `capacity
      ensures Valid() && (value == old(value) || fresh(value)) && Contents() == old(Contents())
      ensures capacity <= this.capacity <=
        if capacity > 2 * old(this.capacity) then capacity else 2 * old(this.capacity)
      ensures this.capacity < old(this.capacity) ==> bytes && this.capacity == if capacity <= size then size else capacity
    {
      if capacity != this.capacity {
        var actual := 0;
        if bytes {
          if capacity <= size {
            actual := size;
          } else if capacity > size && capacity < this.capacity {
            actual := capacity;
          } else {
            actual := 2 * this.capacity;
            if capacity > actual {
              actual := capacity;
            }
          }
        } else if capacity > this.capacity {
          actual := capacity;
        }
        if actual > 0 {
          Fit(actual);
        }
      }
    }

    method PushBack(x: T)
      requires Valid()
      modifies this, value
      ensures Valid() && (value == old(value) || fresh(value)) && Contents() == old(Contents()) + [x]
    {
      if size == capacity {
        Reserve(if capacity == 0 then 1 else 2 * capacity);
      }
      value[size] := x;
      size := size + 1;
    }

    method PopBack()
      requires Valid() && size > 0
      modifies `size, value
      ensures Valid() && Contents() == old(Contents()[..size - 1])
    {
      size := size - 1;
      value[size] := zero;
    }

    function At(i: nat): (x: T)
      requires Valid() && i < size
      reads this, value
      ensures x == Contents()[i]
    {
      value[i]
    }

    // Inserting into an empty vector ignores the index.
    method Insert(index: nat, x: T)
      requires Valid() && (size > 0 ==> index <= size)
      modifies this, value
      ensures Valid() && (value == old(value) || fresh(value))
      ensures var at := if old(size) > 0 then index else 0;
        Contents() == old(Contents())[..at] + [x] + old(Contents())[at..]
    {
      if size > 0 {
        ghost var s := Contents();
        PushBack(value[size - 1]);
        assert value[..size] == s + [s[|s| - 1]];
        MoveUp(index, x);
      } else {
        PushBack(x);
      }
    }

    // Moves the elements from `index` on up by one, over the last one, and stores `x`. The
    // last two are the same, so the walk starts below them.
    method MoveUp(index: nat, x: T)
      requires Valid() && index < size && size > 1 && value[size - 1] == value[size - 2]
      modifies value
      ensures Valid() && Contents() == old(Contents()[..index]) + [x] + old(Contents()[index..size - 1])
    {
      hide ShiftedUp;
      ghost var s := Contents();
      var i := size - 2;
      StartShift(s, size - 1);
      ShiftUp(s, s, size - 1, size - 1);
      assert s[size - 1 := s[size - 2]] == s;
      while i > index
        modifies value
        invariant Valid() && 0 <= i <= size - 2 && (i >= index || i == size - 2) && ShiftedUp(s, Contents(), i, size - 1)
        invariant i == size - 2 ==> Contents() == s
        decreases i
      {
        ShiftUp(s, Contents(), i, size - 1);
        Set(i, value[i - 1]);
        i := i - 1;
      }
      if i < index {
        OpenedUp(s, s, size - 1, x);
      } else {
        OpenedUp(s, Contents(), index, x);
      }
      Set(index, x);
    }

    method Set(index: nat, x: T)
      requires Valid() && index < size
      modifies value
      ensures Valid() && Contents() == old(Contents())[index := x]
    {
      value[index] := x;
    }

    method Erase(index: nat)
      requires Valid() && index < size
      modifies `size, value
      ensures Valid() && Contents() == old(Contents()[..index] + Contents()[index + 1..])
    {
      hide ShiftedDown;
      ghost var s := Contents();
      StartShift(s, index);
      FreeSlot(s, s, index, index, zero);
      Set(index, zero);
      assert value[index] == Contents()[index];
      for i := index to size - 1
        modifies value
        invariant Valid() && ShiftedDown(s, Contents(), index, i) && value[i] == zero
      {
        ShiftDown(s, Contents(), index, i);
        Set(i, value[i + 1]);
        FreeSlot(s, Contents(), index, i + 1, zero);
        Set(i + 1, zero);
        assert value[i + 1] == Contents()[i + 1];
      }
      assert value[size - 1] == zero;
      ShiftedAllDown(s, Contents(), index);
      size := size - 1;
    }

    method Swap(i: nat, j: nat)
      requires Valid() && i < size && j < size
      modifies value
      ensures Valid() && Contents() == SwapAt(old(Contents()), i, j)
    {
      ghost var s := Contents();
      value[i], value[j] := value[j], value[i];
      assert Contents() == SwapAt(s, i, j);
    }

    // Sorts the places a to b around a pivot taken from the middle.
    method RangedSort(a: int, b: int, after: (T, T) -> bool)
      requires Valid() && 0 <= a && b < size
      modifies value
      ensures Valid() && Contents() == RangedSorted(after, old(Contents()), a, b)
      decreases b - a
    {
      hide SwapAt, Partition, RangedSorted, Contents;
      if a >= b {
        RangedEnd(after, Contents(), a, b);
        return;
      }
      RangedStep(after, Contents(), a, b);
      var mid := (a + b) / 2;
      Swap(a, mid);
      var z := Scan(a, b, after);
      Swap(a, z);
      RangedSort(a, z - 1, after);
      RangedSort(z + 1, b, after);
    }

    // Brings what belongs before the pivot at `a` to the front.
    method Scan(a: nat, b: nat, after: (T, T) -> bool) returns (z: int)
      requires Valid() && a < b < size
      modifies value
      ensures Valid() && (Contents(), z) == Partition(after, old(Contents()), a, b, a + 1, a)
      ensures a <= z <= b
    {
      hide SwapAt, Partition, Contents;
      z := a;
      for i := a + 1 to b + 1
        modifies value
        invariant Valid() && a <= z < i
        invariant Partition(after, Contents(), a, b, i, z) == Partition(after, old(Contents()), a, b, a + 1, a)
      {
        PartitionStep(after, Contents(), a, b, i, z);
        if after(At(a), At(i)) {
          z := z + 1;
          Swap(z, i);
        }
      }
      PartitionStep(after, Contents(), a, b, b + 1, z);
    }

    // The iterator holds addresses, here indices; erasing moves the end and the next place.
    method RemoveIf(match_: T -> bool) returns (erases: nat)
      requires Valid()
      modifies `size, value
      ensures Valid() && Contents() == Kept(old(Contents()), match_)
      ensures erases == old(size) - size
    {
      hide Contents, Kept, Filtering, KeptPlace;
      erases := 0;
      ghost var s, k: nat := Contents(), 0;
      StartFilter(s, match_);
      var done, ref, next, end := size == 0, 0, 1, size;
      while !done
        invariant Valid() && end == size && erases == |s| - size
        invariant Filtering(s, match_, Contents(), k)
        invariant if done then k == |s| else k < |s| && ref == KeptPlace(s, match_, k) && next == ref + 1
        decreases |s| - k, !done
      {
        var erased := FilterAt(ref, match_, s, k);
        if erased {
          end := size;
          next := ref;
          erases := erases + 1;
        }
        k := k + 1;
        if next >= end {
          done := true;
        } else {
          ref := next;
          next := next + 1;
        }
      }
      EndFilter(s, match_, Contents());
    }

    // Erases an element, the k-th of the original sequence, if it matches.
    method FilterAt(ref: nat, match_: T -> bool, ghost s: seq<T>, ghost k: nat) returns (erased: bool)
      requires Valid() && k < |s| && ref == KeptPlace(s, match_, k) && Filtering(s, match_, Contents(), k)
      modifies `size, value
      ensures Valid() && Filtering(s, match_, Contents(), k + 1)
      ensures size == old(size) - (if erased then 1 else 0)
      ensures var next := if erased then ref else ref + 1;
        next == KeptPlace(s, match_, k + 1) && next <= size && (k + 1 == |s| <==> next == size)
    {
      hide Contents, Kept, Filtering, KeptPlace;
      FilterOne(s, match_, Contents(), k);
      erased := match_(At(ref));
      if erased {
        Erase(ref);
      }
    }
  }

  // The whole vector: sorted, holding the same elements.
  method Sort<T(0, !new)>(v: Vector<T>, after: (T, T) -> bool)
    requires v.Valid() && StrictWeak(after)
    modifies v.value
    ensures v.Valid() && Sorted(after, v.Contents()) && multiset(v.Contents()) == multiset(old(v.Contents()))
  {
    SortsAll(after, v.Contents());
    v.RangedSort(0, v.size - 1, after);
  }
}
