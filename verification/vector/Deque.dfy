// The double-ended queue: a table of pages, a window of it in use, and free room on both
// sides.
module Deque {
  import opened WeakOrder
  import opened Quicksort
  import opened Filter
  import opened DequePages
  import opened Shifting

  class Page<T(0)> {
    const value: array<T>
    var a: nat
    var b: nat

    ghost function State(): Buf<T>
      reads this, value
    {
      Buf(value[..], a, b)
    }

    constructor (cut: nat)
      ensures a == b == cut && value.Length == BUCKET_SIZE && fresh(value)
    {
      value := new T[BUCKET_SIZE];
      a, b := cut, cut;
    }
  }

  // Different pages with cells of their own.
  ghost predicate Apart<T(0)>(used: seq<Page<T>>) {
    && (forall i :: 0 <= i < |used| ==> used[i].value.Length == BUCKET_SIZE)
    && (forall i, j :: 0 <= i < j < |used| ==> used[i] != used[j] && used[i].value != used[j].value)
  }

  ghost function Arrays<T(0)>(used: seq<Page<T>>): set<array<T>> {
    set p | p in used :: p.value
  }

  class Deque<T(0)> {
    var pages: seq<Page?<T>>
    var markA: nat
    var markB: nat
    var capacity: nat
    var size: nat
    const zero: T
    // The pages between the marks.
    ghost var used: seq<Page<T>>

    ghost function Repr(): set<object>
      reads this
    {
      {this as object} + (set p: Page<T> | p in used :: p as object) + (set p: Page<T> | p in used :: p.value as object)
    }

    // The marks stay inside the table and frame the pages in use.
    ghost predicate Mapped()
      reads this
    {
      && |pages| == capacity && Apart(used)
      && (used != [] ==> markA + |used| == markB <= capacity)
      && forall i :: 0 <= i < |used| ==> pages[markA + i] == used[i]
    }

    ghost function Bufs(): (s: seq<Buf<T>>)
      reads this, used, Arrays(used)
      ensures |s| == |used| && forall i :: 0 <= i < |s| ==> s[i] == used[i].State()
    {
      seq(|used|, i requires 0 <= i < |used| reads this, used, Arrays(used) => used[i].State())
    }

    ghost predicate Valid()
      reads this, used, Arrays(used)
    {
      Mapped() && Packed(Bufs()) && size == Count(Bufs())
    }

    ghost function Contents(): (s: seq<T>)
      requires Valid()
      reads this, used, Arrays(used)
      ensures |s| == size
    {
      Listed(Bufs())
    }

    constructor (zero: T)
      ensures Valid() && Contents() == [] && fresh(Repr())
    {
      pages, markA, markB, capacity, size, used := [], 0, 0, 0, 0, [];
      this.zero := zero;
    }

    lemma Located(index: nat)
      requires Valid() && index < size
      ensures used != [] && markA < |pages| && pages[markA] == used[0]
      ensures var actual := index + used[0].a; var q, r := PageOf(actual), CellOf(actual);
        && q < |used| && markA + q < |pages| && pages[markA + q] == used[q]
        && r < used[q].value.Length && used[q].value[r] == Contents()[index]
        && used[0] in used && used[q] in used && used[q].value in Arrays(used)
    {
      hide Packed, Listed, Count, PageOf, CellOf;
      PackedFacts(Bufs());
      ListedAt(Bufs(), index);
      assert pages[markA + 0] == used[0];
    }

    // The index-th element.
    function At(index: nat): (x: T)
      requires Valid() && index < size
      reads this, used, Arrays(used)
      ensures x == Contents()[index]
    {
      hide *;
      Located(index);
      var actual := index + pages[markA].a;
      pages[markA + PageOf(actual)].value[CellOf(actual)]
    }

    // Writes the index-th element.
    method Put(index: nat, x: T)
      requires Valid() && index < size
      modifies Arrays(used)
      ensures size == old(size) && used == old(used)
      ensures Valid() && Contents() == old(Contents())[index := x]
    {
      hide Packed, Listed, Count, PageOf, CellOf, Written;
      PackedFacts(Bufs());
      ListedPut(Bufs(), index, x);
      assert pages[markA + 0] == used[0];
      var actual := index + pages[markA].a;
      var q, r := PageOf(actual), CellOf(actual);
      assert pages[markA + q] == used[q];
      WriteCell(pages[markA + q], q, r, x);
    }

    method WriteCell(page: Page<T>, ghost q: nat, r: nat, x: T)
      requires Mapped() && q < |used| && used[q] == page && r < BUCKET_SIZE
      modifies page.value
      ensures size == old(size) && used == old(used)
      ensures Bufs() == old(Bufs())[q := Written(old(Bufs())[q], r, x)]
    {
      page.value[r] := x;
    }

    // ----- growing -----

    // Reallocates the page table and moves the pages up, leaving room on both sides.
    method Alloc(capacity: nat, shiftFrom: nat)
      requires markB <= capacity && shiftFrom <= capacity && markB + (capacity - shiftFrom) / 2 <= capacity
      modifies `pages, `markA, `markB, `capacity
      ensures this.capacity == capacity == |pages|
      ensures var shift := (capacity - shiftFrom) / 2;
        && markA == old(markA) + shift && markB == old(markB) + shift
        && forall i :: 0 <= i < old(markB) && i < |old(pages)| ==> pages[i + shift] == old(pages)[i]
    {
      this.capacity := capacity;
      pages := if capacity <= |pages| then pages[..capacity] else pages + seq(capacity - |pages|, i => null);
      var shift := (capacity - shiftFrom) / 2;
      var i := markB;
      ghost var before := pages;
      while i != 0
        modifies `pages
        invariant 0 <= i <= markB && |pages| == capacity
        invariant forall k :: 0 <= k < i ==> pages[k] == before[k]
        invariant forall k :: i + shift <= k < markB + shift ==> pages[k] == before[k - shift]
      {
        i := i - 1;
        pages := pages[i + shift := pages[i]];
      }
      markA := markA + shift;
      markB := markB + shift;
    }

    // Starts over with a table of one empty page.
    method FirstPage(cut: nat)
      modifies `pages, `markA, `markB, `capacity, `used
      ensures Mapped() && |used| == 1 && fresh(used[0]) && fresh(used[0].value)
      ensures Bufs() == [Buf(used[0].value[..], cut, cut)]
    {
      markA := 0;
      markB := 1;
      Alloc(1, 0);
      var page := new Page<T>(cut);
      pages := pages[markB - 1 := page];
      used := [page];
    }

    // Makes sure that the first page has room at its front.
    method RoomInFront()
      requires Valid()
      modifies this
      ensures Mapped() && RoomFront(Bufs()) && Listed(Bufs()) == old(Contents()) && size == old(size)
      ensures used == old(used) || (used == [used[0]] + old(used) && fresh(used[0]) && fresh(used[0].value))
    {
      hide Packed, Listed, Count, RoomFront;
      PackedFacts(Bufs());
      if size == 0 {
        FirstPage(BUCKET_SIZE);
        FirstIsRoom(used[0].value[..]);
      } else {
        HasRoomFront(Bufs());
        assert pages[markA + 0] == used[0];
        var page := pages[markA];
        if page.a == 0 {
          AddInFront();
        }
      }
    }

    // Grows the table if the window has reached its start.
    method SpareInFront()
      requires Mapped() && used != []
      modifies `pages, `markA, `markB, `capacity
      ensures Mapped() && markA > 0
    {
      if markA == 0 {
        ghost var before := pages;
        Alloc(2 * capacity, markA);
        assert forall i :: 0 <= i < |used| ==> before[i] == used[i];
      }
    }

    method AddInFront()
      requires Valid() && size > 0 && used[0].a == 0
      modifies `pages, `markA, `markB, `capacity, `used
      ensures Mapped() && RoomFront(Bufs()) && Listed(Bufs()) == old(Contents())
      ensures used == [used[0]] + old(used) && fresh(used[0]) && fresh(used[0].value)
    {
      hide Packed, Listed, Count, RoomFront;
      ghost var s := Bufs();
      PackedFacts(s);
      SpareInFront();
      assert Bufs() == s;
      LinkInFront();
      NewFront(s, used[0].value[..]);
    }

    method LinkInFront()
      requires Mapped() && used != [] && markA > 0
      modifies `pages, `markA, `used
      ensures Mapped() && used != [] && used == [used[0]] + old(used) && fresh(used[0]) && fresh(used[0].value)
      ensures Bufs() == [Buf(used[0].value[..], BUCKET_SIZE, BUCKET_SIZE)] + old(Bufs())
    {
      markA := markA - 1;
      var page := new Page<T>(BUCKET_SIZE);
      pages := pages[markA := page];
      used := [page] + used;
    }

    method PushFront(x: T)
      requires Valid()
      modifies Repr()
      ensures Valid() && Contents() == [x] + old(Contents()) && fresh(Repr() - old(Repr()))
    {
      hide Packed, Listed, Count, RoomFront;
      RoomInFront();
      RoomFrontFacts(Bufs());
      StoreInFront(x);
    }

    // Stores one element in front of the others.
    method StoreInFront(x: T)
      requires Mapped() && RoomFront(Bufs()) && size == |Listed(Bufs())|
      modifies `size, used[0], used[0].value
      ensures Valid() && Contents() == [x] + old(Listed(Bufs()))
    {
      hide Packed, Listed, Count, RoomFront;
      ghost var s := Bufs();
      RoomFrontFacts(s);
      StoreFront(s, x);
      assert pages[markA + 0] == used[0];
      var page := pages[markA];
      page.a := page.a - 1;
      size := size + 1;
      page.value[page.a] := x;
      assert Bufs() == s[0 := Buf(s[0].cells[s[0].a - 1 := x], s[0].a - 1, s[0].b)];
    }

    // The same at the back.
    method RoomAtBack()
      requires Valid()
      modifies this
      ensures Mapped() && RoomBack(Bufs()) && Listed(Bufs()) == old(Contents()) && size == old(size)
      ensures used == old(used) ||
        (used == old(used) + [used[|used| - 1]] && fresh(used[|used| - 1]) && fresh(used[|used| - 1].value))
    {
      hide Packed, Listed, Count, RoomBack;
      PackedFacts(Bufs());
      if size == 0 {
        FirstPage(0);
        FirstIsRoom(used[0].value[..]);
      } else {
        HasRoomBack(Bufs());
        assert pages[markA + (|used| - 1)] == used[|used| - 1];
        var page := pages[markB - 1];
        if page.b == BUCKET_SIZE {
          AddAtBack();
        }
      }
    }

    method SpareAtBack()
      requires Mapped() && used != []
      modifies `pages, `markA, `markB, `capacity
      ensures Mapped() && markB < capacity
    {
      if markB == capacity {
        ghost var before, a := pages, markA;
        Alloc(2 * capacity, markB);
        assert forall i :: 0 <= i < |used| ==> before[a + i] == used[i];
      }
    }

    method AddAtBack()
      requires Valid() && size > 0 && used[|used| - 1].b == BUCKET_SIZE
      modifies `pages, `markA, `markB, `capacity, `used
      ensures Mapped() && RoomBack(Bufs()) && Listed(Bufs()) == old(Contents())
      ensures used == old(used) + [used[|used| - 1]] && fresh(used[|used| - 1]) && fresh(used[|used| - 1].value)
    {
      hide Packed, Listed, Count, RoomBack;
      ghost var s := Bufs();
      PackedFacts(s);
      SpareAtBack();
      assert Bufs() == s;
      LinkAtBack();
      NewBack(s, used[|used| - 1].value[..]);
    }

    method LinkAtBack()
      requires Mapped() && used != [] && markB < capacity
      modifies `pages, `markB, `used
      ensures Mapped() && used != [] && used == old(used) + [used[|used| - 1]] && fresh(used[|used| - 1]) && fresh(used[|used| - 1].value)
      ensures Bufs() == old(Bufs()) + [Buf(used[|used| - 1].value[..], 0, 0)]
    {
      markB := markB + 1;
      var page := new Page<T>(0);
      pages := pages[markB - 1 := page];
      used := used + [page];
    }

    method PushBack(x: T)
      requires Valid()
      modifies Repr()
      ensures Valid() && Contents() == old(Contents()) + [x] && fresh(Repr() - old(Repr()))
    {
      hide Packed, Listed, Count, RoomBack;
      RoomAtBack();
      RoomBackFacts(Bufs());
      assert used[|used| - 1] in used;
      StoreAtBack(x);
    }

    method StoreAtBack(x: T)
      requires Mapped() && RoomBack(Bufs()) && size == |Listed(Bufs())|
      modifies `size, used[|used| - 1], used[|used| - 1].value
      ensures Valid() && Contents() == old(Listed(Bufs())) + [x]
    {
      hide Packed, Listed, Count, RoomBack;
      ghost var s, n := Bufs(), |used| - 1;
      RoomBackFacts(s);
      StoreBack(s, x);
      assert pages[markA + n] == used[n];
      var page := pages[markB - 1];
      page.value[page.b] := x;
      page.b := page.b + 1;
      size := size + 1;
      assert Bufs() == s[n := Buf(s[n].cells[s[n].b := x], s[n].a, s[n].b + 1)];
    }

    // ----- shrinking -----

    method PopFront()
      requires Valid() && size > 0
      modifies this, used[0]
      ensures Valid() && Contents() == old(Contents())[1..] && size == old(size) - 1
      ensures (used == old(used) || used == old(used)[1..]) && Repr() <= old(Repr())
    {
      hide Packed, Listed, Count, WithoutFirst;
      ghost var s := Bufs();
      PackedFacts(s);
      DropFront(s);
      assert pages[markA + 0] == used[0];
      AdvanceFront();
      assert forall p :: p in used ==> p in old(used);
    }

    method AdvanceFront()
      requires Mapped() && used != [] && size > 0
      modifies this, used[0]
      ensures Mapped() && Bufs() == WithoutFirst(old(Bufs())) && size == old(size) - 1
      ensures used == old(used) || used == old(used)[1..]
    {
      assert pages[markA + 0] == used[0];
      var page := pages[markA];
      page.a := page.a + 1;
      size := size - 1;
      if page.a == page.b {
        used := used[1..];
        markA := markA + 1;
      }
    }

    method PopBack()
      requires Valid() && size > 0
      modifies this, used[|used| - 1]
      ensures Valid() && Contents() == old(Contents())[..old(size) - 1] && size == old(size) - 1
      ensures (used == old(used) || used == old(used)[..|old(used)| - 1]) && Repr() <= old(Repr())
    {
      hide Packed, Listed, Count, WithoutLast;
      ghost var s := Bufs();
      PackedFacts(s);
      DropBack(s);
      RetreatBack();
      assert forall p :: p in used ==> p in old(used);
    }

    method RetreatBack()
      requires Mapped() && used != [] && size > 0 && used[|used| - 1].b > 0
      modifies this, used[|used| - 1]
      ensures Mapped() && Bufs() == WithoutLast(old(Bufs())) && size == old(size) - 1
      ensures used == old(used) || used == old(used)[..|old(used)| - 1]
    {
      assert pages[markA + (|used| - 1)] == used[|used| - 1];
      var page := pages[markB - 1];
      page.b := page.b - 1;
      size := size - 1;
      if page.b == page.a {
        used := used[..|used| - 1];
        markB := markB - 1;
      }
    }

    // ----- in the middle -----

    // Shifts the shorter side by one and pops an end.
    method Erase(index: nat)
      requires Valid() && index < size
      modifies Repr()
      ensures Valid() && Contents() == old(Contents()[..index] + Contents()[index + 1..])
      ensures size == old(size) - 1 && Repr() <= old(Repr())
    {
      hide Valid, Contents;
      Put(index, zero);
      Located(0);
      assert used[0] in used && used[|used| - 1] in used;
      if index < size / 2 {
        CloseFromFront(index);
        PopFront();
      } else {
        CloseFromBack(index);
        PopBack();
      }
    }

    // Moves the elements before `index` up by one, over the one at `index`.
    method CloseFromFront(index: nat)
      requires Valid() && index < size
      modifies Arrays(used)
      ensures size == old(size) && used == old(used)
      ensures Valid() && Contents()[1..] == old(Contents()[..index] + Contents()[index + 1..])
    {
      hide Valid, Contents, ShiftedUp;
      ghost var s := Contents();
      StartShift(s, index);
      var i := index;
      while i > 0
        invariant size == old(size) && used == old(used) && Valid() && 0 <= i <= index
        invariant ShiftedUp(s, Contents(), i, index)
        decreases i
      {
        ShiftUp(s, Contents(), i, index);
        Put(i, At(i - 1));
        i := i - 1;
      }
      ShiftedAllUp(s, Contents(), index);
    }

    // Moves the elements after `index` down by one, over the one at `index`.
    method CloseFromBack(index: nat)
      requires Valid() && index < size
      modifies Arrays(used)
      ensures size == old(size) && used == old(used)
      ensures Valid() && Contents()[..size - 1] == old(Contents()[..index] + Contents()[index + 1..])
    {
      hide Valid, Contents, ShiftedDown;
      ghost var s := Contents();
      StartShift(s, index);
      var i := index;
      while i < size - 1
        invariant size == old(size) && used == old(used) && Valid() && index <= i <= size - 1
        invariant ShiftedDown(s, Contents(), index, i)
      {
        ShiftDown(s, Contents(), index, i);
        Put(i, At(i + 1));
        i := i + 1;
      }
      ShiftedAllDown(s, Contents(), index);
    }

    // Pushes a copy of the nearer end and shifts that side by one. Inserting into an empty
    // deque ignores the index.
    method Insert(index: nat, x: T)
      requires Valid() && (size > 0 ==> index <= size)
      modifies Repr()
      ensures Valid() && fresh(Repr() - old(Repr()))
      ensures var at := if old(size) > 0 then index else 0;
        Contents() == old(Contents())[..at] + [x] + old(Contents())[at..]
    {
      hide Valid, Contents;
      if size > 0 {
        if index < size / 2 {
          InsertFromFront(index, x);
        } else {
          InsertFromBack(index, x);
        }
      } else {
        PushBack(x);
      }
    }

    method InsertFromFront(index: nat, x: T)
      requires Valid() && index < size
      modifies Repr()
      ensures Valid() && fresh(Repr() - old(Repr()))
      ensures Contents() == old(Contents())[..index] + [x] + old(Contents())[index..]
    {
      hide Valid, Contents;
      ghost var s := Contents();
      PushFront(At(0));
      OpenFromFront(index, x);
      assert ([s[0]] + s)[1..index + 1] == s[..index] && ([s[0]] + s)[index + 1..] == s[index..];
    }

    method InsertFromBack(index: nat, x: T)
      requires Valid() && size > 0 && index <= size
      modifies Repr()
      ensures Valid() && fresh(Repr() - old(Repr()))
      ensures Contents() == old(Contents())[..index] + [x] + old(Contents())[index..]
    {
      hide Valid, Contents;
      ghost var s := Contents();
      PushBack(At(size - 1));
      OpenFromBack(index, x);
      assert (s + [s[|s| - 1]])[..index] == s[..index] && (s + [s[|s| - 1]])[index..|s|] == s[index..];
    }

    // Moves the elements up to `index` down by one, over the first, and stores `x`.
    method OpenFromFront(index: nat, x: T)
      requires Valid() && index < size
      modifies Arrays(used)
      ensures size == old(size) && used == old(used)
      ensures Valid() && Contents() == old(Contents()[1..index + 1] + [x] + Contents()[index + 1..])
    {
      hide Valid, Contents, ShiftedDown;
      ghost var s := Contents();
      StartShift(s, 0);
      var i := 0;
      while i < index
        invariant size == old(size) && used == old(used) && Valid() && 0 <= i <= index
        invariant ShiftedDown(s, Contents(), 0, i)
      {
        ShiftDown(s, Contents(), 0, i);
        Put(i, At(i + 1));
        i := i + 1;
      }
      OpenedDown(s, Contents(), index, x);
      Put(index, x);
    }

    // Moves the elements from `index` on up by one, over the last, and stores `x`.
    method OpenFromBack(index: nat, x: T)
      requires Valid() && index < size
      modifies Arrays(used)
      ensures size == old(size) && used == old(used)
      ensures Valid() && Contents() == old(Contents()[..index] + [x] + Contents()[index..size - 1])
    {
      hide Valid, Contents, ShiftedUp;
      ghost var s := Contents();
      StartShift(s, size - 1);
      var i := size - 1;
      while i > index
        invariant size == old(size) && used == old(used) && Valid() && index <= i < size
        invariant ShiftedUp(s, Contents(), i, size - 1)
        decreases i
      {
        ShiftUp(s, Contents(), i, size - 1);
        Put(i, At(i - 1));
        i := i - 1;
      }
      OpenedUp(s, Contents(), index, x);
      Put(index, x);
    }

    // ----- sorting and filtering -----

    method Swap(i: nat, j: nat)
      requires Valid() && i < size && j < size
      modifies Arrays(used)
      ensures size == old(size) && used == old(used)
      ensures Valid() && Contents() == SwapAt(old(Contents()), i, j)
    {
      hide Valid, Contents;
      var x, y := At(i), At(j);
      Put(i, y);
      Put(j, x);
    }

    // Sorts the places a to b around a pivot taken from the middle.
    method RangedSort(a: int, b: int, after: (T, T) -> bool)
      requires Valid() && 0 <= a && b < size
      modifies Arrays(used)
      ensures size == old(size) && used == old(used)
      ensures Valid() && Contents() == RangedSorted(after, old(Contents()), a, b)
      decreases b - a
    {
      hide SwapAt, Partition, RangedSorted, Contents, Valid;
      if a >= b {
        RangedEnd(after, Contents(), a, b);
        return;
      }
      RangedStep(after, Contents(), a, b);
      var mid := (a + b) / 2;
      Swap(a, mid);
      var z := Scan(a, b, after);
      Swap(a, z);
      RangedSort(a, z - 1, after);
      RangedSort(z + 1, b, after);
    }

    // Brings what belongs before the pivot at `a` to the front.
    method Scan(a: nat, b: nat, after: (T, T) -> bool) returns (z: int)
      requires Valid() && a < b < size
      modifies Arrays(used)
      ensures size == old(size) && used == old(used)
      ensures Valid() && (Contents(), z) == Partition(after, old(Contents()), a, b, a + 1, a)
      ensures a <= z <= b
    {
      hide SwapAt, Partition, Contents, Valid;
      z := a;
      for i := a + 1 to b + 1
        invariant size == old(size) && used == old(used) && Valid() && a <= z < i
        invariant Partition(after, Contents(), a, b, i, z) == Partition(after, old(Contents()), a, b, a + 1, a)
      {
        PartitionStep(after, Contents(), a, b, i, z);
        if after(At(a), At(i)) {
          z := z + 1;
          Swap(z, i);
        }
      }
      PartitionStep(after, Contents(), a, b, b + 1, z);
    }

    // The iterator holds indices; erasing moves the next index back and the last one down.
    method RemoveIf(match_: T -> bool) returns (erases: nat)
      requires Valid()
      modifies Repr()
      ensures Valid() && Contents() == Kept(old(Contents()), match_) && erases == old(size) - size
    {
      hide Valid, Contents, Kept, Filtering, KeptPlace;
      erases := 0;
      ghost var s, k: nat, repr := Contents(), 0, Repr();
      StartFilter(s, match_);
      var done, index, indexNext, indexLast := size == 0, 0, 1, size;
      while !done
        invariant Valid() && indexLast == size && erases == |s| - size && Repr() <= repr
        invariant Filtering(s, match_, Contents(), k)
        invariant if done then k == |s| else k < |s| && index == KeptPlace(s, match_, k) && indexNext == index + 1
        decreases |s| - k, !done
      {
        var erased := FilterAt(index, match_, s, k);
        if erased {
          indexNext := index;
          indexLast := indexLast - 1;
          erases := erases + 1;
        }
        k := k + 1;
        index := indexNext;
        if index == indexLast {
          done := true;
        } else {
          indexNext := indexNext + 1;
        }
      }
      EndFilter(s, match_, Contents());
    }

    // Erases the index-th element, the k-th of the original sequence, if it matches.
    method FilterAt(index: nat, match_: T -> bool, ghost s: seq<T>, ghost k: nat) returns (erased: bool)
      requires Valid() && k < |s| && index == KeptPlace(s, match_, k) && Filtering(s, match_, Contents(), k)
      modifies Repr()
      ensures Valid() && Repr() <= old(Repr()) && Filtering(s, match_, Contents(), k + 1)
      ensures size == old(size) - (if erased then 1 else 0)
      ensures var next := if erased then index else index + 1;
        next == KeptPlace(s, match_, k + 1) && (k + 1 == |s| <==> next == size)
    {
      hide Valid, Contents, Kept, Filtering, KeptPlace;
      FilterOne(s, match_, Contents(), k);
      erased := match_(At(index));
      if erased {
        Erase(index);
      }
    }
  }

  // The whole deque: sorted, holding the same elements.
  method Sort<T(0, !new)>(d: Deque<T>, after: (T, T) -> bool)
    requires d.Valid() && StrictWeak(after)
    modifies Arrays(d.used)
    ensures d.Valid() && Sorted(after, d.Contents()) && multiset(d.Contents()) == multiset(old(d.Contents()))
  {
    SortsAll(after, d.Contents());
    d.RangedSort(0, d.size - 1, after);
  }
}
