/**
 * `MyArrayList` (MyArrayList.java): a list kept in a backing array whose
 * first `size` slots hold the elements and whose remaining slots are `null`.
 * The array grows by `resize`, which doubles the separate `capacity` field.
 */
module ArrayList {
  import opened ListSpec
  import opened Ordering

  /** Initial value of the `capacity` field and length of the default store. */
  const DefaultCapacity: nat := 10

  class MyArrayList<T(==)> {
    var data: array<Option<T>>
    var size: nat
    var capacity: int
    /** The elements, in index order. */
    ghost var Contents: seq<T>

    /** The first `size` slots hold `Contents`, every later slot is `null`. */
    ghost predicate Valid()
      reads this, data
    {
      && size <= data.Length
      && DefaultCapacity <= capacity
      && |Contents| == size
      && (forall i :: 0 <= i < size ==> data[i] == Some(Contents[i]))
      && (forall i :: size <= i < data.Length ==> data[i] == None)
    }

    /** `MyArrayList()`: an empty list over a store of `DefaultCapacity` slots. */
    constructor ()
      ensures Valid() && fresh(data)
      ensures data.Length == DefaultCapacity && capacity == DefaultCapacity && Contents == []
    {
      data := new Option<T>[DefaultCapacity](_ => None);
      size := 0;
      capacity := DefaultCapacity;
      Contents := [];
    }

    /**
     * The allocation in `MyArrayList(int)`, once its argument is known to be
     * positive: the store has the requested length, but `capacity` keeps
     * its initial value.
     */
    constructor Sized(sizeCapacity: nat)
      requires sizeCapacity > 0
      ensures Valid() && fresh(data)
      ensures data.Length == sizeCapacity && capacity == DefaultCapacity && Contents == []
    {
      data := new Option<T>[sizeCapacity](_ => None);
      size := 0;
      capacity := DefaultCapacity;
      Contents := [];
    }

    /**
     * `resize()`: doubles `capacity`, then copies the store into a new array
     * of that length. The copy of `data.length` slots fails, leaving the old
     * store in place but the doubled `capacity`, when the store is longer.
     */
    method Resize() returns (r: Outcome)
      requires Valid()
      modifies this
      ensures Valid() && size == old(size) && Contents == old(Contents)
      ensures capacity == 2 * old(capacity)
      ensures r.Pass? <==> old(data.Length) <= 2 * old(capacity)
      ensures r.Fail? ==> r == Fail(ArrayIndexOutOfBounds) && data == old(data)
      ensures r.Pass? ==> fresh(data) && data.Length == 2 * old(capacity)
      ensures r.Pass? ==> data[..old(data.Length)] == old(data[..])
    {
      capacity := 2 * capacity;
      var newData := new Option<T>[capacity](_ => None);
      if data.Length > newData.Length {
        // System.arraycopy rejects a source range that does not fit the destination
        return Fail(ArrayIndexOutOfBounds);
      }
      forall i | 0 <= i < data.Length {
        newData[i] := data[i];
      }
      data := newData;
      r := Pass;
    }

    /**
     * `add(idx, elm)`: inserts `elm` before position `idx`, growing the store
     * first when it is full. When the grown store is no longer than the old
     * one, the first write past its end throws before anything moves.
     */
    method AddAt(idx: int, elm: T) returns (r: Outcome)
      requires Valid()
      modifies this, data
      ensures Valid()
      ensures r.Pass? <==>
                0 <= idx <= old(size) && (old(size) < old(data.Length) || old(data.Length) < 2 * old(capacity))
      ensures r.Pass? ==> Contents == InsertedAt(old(Contents), idx, elm)
      ensures (idx < 0 || old(size) < idx) ==> r == Fail(IndexOutOfBounds) && unchanged(this) && unchanged(data)
      ensures r.Fail? ==> Contents == old(Contents)
      ensures 0 <= idx <= old(size) && r.Fail? ==> r == Fail(ArrayIndexOutOfBounds)
      ensures 0 <= idx <= old(size) ==>
                capacity == if old(size) == old(data.Length) then 2 * old(capacity) else old(capacity)
      ensures 0 <= idx <= old(size) && old(size) < old(data.Length) ==> data == old(data)
      ensures old(size) == old(data.Length) && r.Pass? ==> fresh(data) && data.Length == 2 * old(capacity)
      ensures 0 <= idx <= old(size) == old(data.Length) == 2 * old(capacity) ==>
                fresh(data) && data.Length == old(data.Length)
      ensures 0 <= idx <= old(size) == old(data.Length) && old(data.Length) > 2 * old(capacity) ==> data == old(data)
    {
      if idx < 0 || idx > size {
        return Fail(IndexOutOfBounds);
      }
      if size == data.Length {
        r := Resize();
        if r.Fail? {
          return;
        }
      }
      if size == data.Length {
        // the shift's first write `data[size]`, or `data[idx]` when idx == size, is out of bounds
        return Fail(ArrayIndexOutOfBounds);
      }
      var i := size;
      while i > idx
        invariant idx <= i <= size < data.Length
        invariant forall k :: 0 <= k < i ==> data[k] == Some(Contents[k])
        invariant forall k :: i < k <= size ==> data[k] == Some(Contents[k - 1])
        invariant forall k :: size < k < data.Length ==> data[k] == None
        modifies data
      {
        data[i] := data[i - 1];
        i := i - 1;
      }
      data[idx] := Some(elm);
      size := size + 1;
      Contents := InsertedAt(Contents, idx, elm);
      r := Pass;
    }

    /**
     * `add(elm)`: appends `elm`, growing the store first when it is full. In
     * `data[size++] = elm` the index, and so the increment of `size`, is
     * evaluated before the bounds check, so a write past the end of a grown
     * store that is no longer than the old one leaves `size` one past the
     * store's length.
     */
    method Add(elm: T) returns (r: Outcome)
      requires Valid()
      modifies this, data
      ensures r.Pass? <==> old(size) < old(data.Length) || old(data.Length) < 2 * old(capacity)
      ensures r.Pass? ==> Valid() && Contents == old(Contents) + [elm]
      ensures old(size) < old(data.Length) ==> data == old(data) && capacity == old(capacity)
      ensures old(size) == old(data.Length) ==> capacity == 2 * old(capacity)
      ensures r.Fail? ==> r == Fail(ArrayIndexOutOfBounds) && Contents == old(Contents)
      ensures old(size) == old(data.Length) > 2 * old(capacity) ==> Valid() && data == old(data)
      ensures old(size) == old(data.Length) && r.Pass? ==> fresh(data) && data.Length == 2 * old(capacity)
      ensures old(size) == old(data.Length) == 2 * old(capacity) ==>
                && fresh(data) && data[..] == old(data[..])
                && size == old(size) + 1 && size > data.Length && !Valid()
    {
      if data.Length == size {
        r := Resize();
        if r.Fail? {
          return;
        }
      }
      var i := size;
      size := size + 1;
      if i >= data.Length {
        return Fail(ArrayIndexOutOfBounds);
      }
      data[i] := Some(elm);
      Contents := Contents + [elm];
      r := Pass;
    }

    /**
     * `get(idx)`: the element at `idx`. The range check admits `idx == size`,
     * which reads the `null` slot after the last element, or runs off the
     * end of a full store.
     */
    method Get(idx: int) returns (r: Result<Option<T>>)
      requires Valid()
      ensures idx < 0 || size < idx ==> r == Failure(IndexOutOfBounds)
      ensures 0 <= idx < size ==> r == Success(Some(Contents[idx]))
      ensures idx == size < data.Length ==> r == Success(None)
      ensures idx == size == data.Length ==> r == Failure(ArrayIndexOutOfBounds)
    {
      if idx < 0 || idx > size {
        return Failure(IndexOutOfBounds);
      }
      if idx == data.Length {
        return Failure(ArrayIndexOutOfBounds);
      }
      r := Success(data[idx]);
    }

    /** `clean()`: a fresh all-`null` store whose length is the `capacity` field, and no elements. */
    method Clean()
      requires Valid()
      modifies this
      ensures Valid() && fresh(data)
      ensures data.Length == capacity && capacity == old(capacity) && Contents == []
    {
      data := new Option<T>[capacity](_ => None);
      size := 0;
      Contents := [];
    }

    /** `remove(idx)`: removes and returns the element at `idx`, shifting the later ones left. */
    method RemoveAt(idx: int) returns (r: Result<T>)
      requires Valid()
      modifies this, data
      ensures Valid() && data == old(data) && capacity == old(capacity)
      ensures idx < 0 || old(size) <= idx ==> r == Failure(IndexOutOfBounds) && Contents == old(Contents)
      ensures 0 <= idx < old(size) ==>
                && r == Success(old(Contents)[idx])
                && Contents == RemovedAt(old(Contents), idx)
                && data[old(size) - 1] == None
    {
      if idx < 0 || idx >= size {
        return Failure(IndexOutOfBounds);
      }
      var removedElement := data[idx].value;
      DelElm(idx);
      r := Success(removedElement);
    }

    /** `remove(elm)`: removes the first element equal to `elm`, reporting whether there was one. */
    method Remove(elm: T) returns (removed: bool)
      requires Valid()
      modifies this, data
      ensures Valid() && data == old(data) && capacity == old(capacity)
      ensures removed <==> elm in old(Contents)
      ensures Contents == RemovedFirst(old(Contents), elm)
    {
      var idxToRemove := FindElm(elm);
      if idxToRemove.Some? {
        DelElm(idxToRemove.value);
        return true;
      }
      return false;
    }

    /** `delElm(idx)`: shifts the elements after `idx` one slot left and clears the vacated last slot. */
    method DelElm(idxToRemove: nat)
      requires Valid() && idxToRemove < size
      modifies this, data
      ensures Valid() && data == old(data) && capacity == old(capacity)
      ensures Contents == RemovedAt(old(Contents), idxToRemove)
      ensures data[old(size) - 1] == None
    {
      for i := idxToRemove to size - 1
        invariant forall k :: 0 <= k < idxToRemove ==> data[k] == Some(Contents[k])
        invariant forall k :: idxToRemove <= k < i ==> data[k] == Some(Contents[k + 1])
        invariant forall k :: i <= k < size ==> data[k] == Some(Contents[k])
        invariant forall k :: size <= k < data.Length ==> data[k] == None
        modifies data
      {
        data[i] := data[i + 1];
      }
      data[size - 1] := None;
      size := size - 1;
      Contents := RemovedAt(Contents, idxToRemove);
    }

    /**
     * `sort(comparator)`: a bubble sort over the first `size` slots that makes
     * `size - 1` full passes, swapping each adjacent pair the comparator puts
     * out of order.
     */
    method Sort(cmp: (T, T) -> int)
      requires Valid() && TotalPreorderOn(cmp, Contents)
      modifies this`Contents, data
      ensures Valid() && data == old(data) && size == old(size) && capacity == old(capacity)
      ensures multiset(Contents) == multiset(old(Contents))
      ensures Sorted(cmp, Contents)
    {
      if size > 1 {
        for i := 0 to size - 1
          invariant Valid()
          invariant multiset(Contents) == multiset(old(Contents))
          invariant SettledFrom(cmp, Contents, size - i)
        {
          BubblePass(cmp, i, old(Contents));
        }
      }
    }

    /**
     * Pass `i` of `sort`, the inner loop over every adjacent pair: it carries
     * the largest element not yet settled up to position `size - 1 - i`, so
     * one more slot at the end is settled. `s0` is the list before sorting.
     */
    method BubblePass(cmp: (T, T) -> int, i: nat, ghost s0: seq<T>)
      requires Valid() && i + 1 < size
      requires TotalPreorderOn(cmp, s0) && multiset(Contents) == multiset(s0)
      requires SettledFrom(cmp, Contents, size - i)
      modifies this`Contents, data
      ensures Valid()
      ensures multiset(Contents) == multiset(s0)
      ensures SettledFrom(cmp, Contents, size - i - 1)
    {
      ghost var b := size - i;
      for j := 0 to size - 1
        invariant Valid()
        invariant multiset(Contents) == multiset(s0)
        invariant SettledFrom(cmp, Contents, b)
        invariant j < b ==> MaxAt(cmp, Contents, j)
        invariant b - 1 <= j ==> SettledFrom(cmp, Contents, b - 1)
      {
        if cmp(data[j].value, data[j + 1].value) > 0 {
          ghost var before := Contents;
          SwapNext(j);
          SwapStep(cmp, s0, before, Contents, j, b);
        } else {
          KeepStep(cmp, s0, Contents, j, b);
        }
      }
    }

    /** The exchange of slots `j` and `j + 1` through a temporary in `sort`. */
    method SwapNext(j: nat)
      requires Valid() && j + 1 < size
      modifies this`Contents, data
      ensures Valid()
      ensures Contents == old(Contents)[j := old(Contents)[j + 1]][j + 1 := old(Contents)[j]]
    {
      var tmp := data[j];
      data[j] := data[j + 1];
      data[j + 1] := tmp;
      Contents := Contents[j := Contents[j + 1]][j + 1 := Contents[j]];
    }

    /** `size()`: the number of elements. */
    method Size() returns (n: nat)
      requires Valid()
      ensures n == |Contents|
    {
      n := size;
    }

    /** `findElm(elm)`: the index of the first element equal to `elm`, scanning `[0, size)`. */
    method FindElm(elm: T) returns (r: Option<nat>)
      requires Valid()
      ensures r == FirstIndexOf(Contents, elm)
    {
      for i := 0 to size
        invariant elm !in Contents[..i]
      {
        if data[i] == Some(elm) {
          assert Contents[i] == elm;
          return Some(i);
        }
        assert Contents[..i + 1] == Contents[..i] + [Contents[i]];
      }
      assert Contents[..size] == Contents;
      return None;
    }

    /** `contains(elm)`: whether some element equals `elm`. */
    method Contains(elm: T) returns (found: bool)
      requires Valid()
      ensures found <==> elm in Contents
    {
      var idx := FindElm(elm);
      found := idx.Some?;
    }

    /** `toArray()`: the backing store itself, `null` slots and all, not a copy. */
    method ToArray() returns (a: array<Option<T>>)
      requires Valid()
      ensures a == data
      ensures forall i :: 0 <= i < a.Length ==> a[i] == if i < |Contents| then Some(Contents[i]) else None
    {
      a := data;
    }
  }

  /** Positions from `b` on hold their final values: each is ordered after every element before it. */
  ghost predicate SettledFrom<T>(cmp: (T, T) -> int, s: seq<T>, b: int) {
    forall x, y :: 0 <= x < y < |s| && b <= y ==> cmp(s[x], s[y]) <= 0
  }

  /** `s[j]` is ordered after every element before it: the element a bubble pass carries along. */
  ghost predicate MaxAt<T>(cmp: (T, T) -> int, s: seq<T>, j: int) {
    forall x :: 0 <= x < j && j < |s| ==> cmp(s[x], s[j]) <= 0
  }

  /** A pass step that swaps an out-of-order pair below the settled suffix carries the larger one on. */
  lemma SwapStep<T>(cmp: (T, T) -> int, s0: seq<T>, s: seq<T>, t: seq<T>, j: nat, b: nat)
    requires j + 1 < |s| && 1 < b <= |s|
    requires t == s[j := s[j + 1]][j + 1 := s[j]]
    requires TotalPreorderOn(cmp, s0) && multiset(s) == multiset(s0)
    requires cmp(s[j], s[j + 1]) > 0
    requires SettledFrom(cmp, s, b)
    requires j < b ==> MaxAt(cmp, s, j)
    requires b - 1 <= j ==> SettledFrom(cmp, s, b - 1)
    ensures multiset(t) == multiset(s0)
    ensures SettledFrom(cmp, t, b)
    ensures j + 1 < b ==> MaxAt(cmp, t, j + 1)
    ensures b - 1 <= j + 1 ==> SettledFrom(cmp, t, b - 1)
  {
    TotalPreorderOnPermutation(cmp, s0, s);
    var lo, hi := s[j], s[j + 1];
    assert b - 1 <= j ==> cmp(lo, hi) <= 0;
    assert s[j] in s && s[j + 1] in s;
    assert cmp(s[j + 1], s[j]) <= 0;
    SwappedMultiset(s, j, j + 1);
    forall x, y | 0 <= x < y < |t| && b <= y ensures cmp(t[x], t[y]) <= 0 {
      if x == j {
        assert cmp(s[j + 1], s[y]) <= 0;
      } else if x == j + 1 {
        assert cmp(s[j], s[y]) <= 0;
      }
    }
    forall x | 0 <= x < j + 1 ensures cmp(t[x], t[j + 1]) <= 0 {
      if x < j {
        assert s[x] in s;
        assert cmp(s[x], s[j]) <= 0;
      }
    }
    if b - 1 <= j + 1 {
      forall x, y | 0 <= x < y < |t| && b - 1 <= y ensures cmp(t[x], t[y]) <= 0 {
        if y == b - 1 {
          assert MaxAt(cmp, t, j + 1);
        }
      }
    }
  }

  /** A pass step over a pair already in order changes nothing and carries the larger one on. */
  lemma KeepStep<T>(cmp: (T, T) -> int, s0: seq<T>, s: seq<T>, j: nat, b: nat)
    requires j + 1 < |s| && 1 < b <= |s|
    requires TotalPreorderOn(cmp, s0) && multiset(s) == multiset(s0)
    requires cmp(s[j], s[j + 1]) <= 0
    requires SettledFrom(cmp, s, b)
    requires j < b ==> MaxAt(cmp, s, j)
    requires b - 1 <= j ==> SettledFrom(cmp, s, b - 1)
    ensures j + 1 < b ==> MaxAt(cmp, s, j + 1)
    ensures b - 1 <= j + 1 ==> SettledFrom(cmp, s, b - 1)
  {
    TotalPreorderOnPermutation(cmp, s0, s);
    if j + 1 < b {
      forall x | 0 <= x < j + 1 ensures cmp(s[x], s[j + 1]) <= 0 {
        if x < j {
          assert s[x] in s && s[j] in s && s[j + 1] in s;
          assert cmp(s[x], s[j]) <= 0;
        }
      }
    }
    if b - 1 == j + 1 {
      forall x, y | 0 <= x < y < |s| && b - 1 <= y ensures cmp(s[x], s[y]) <= 0 {
        if y == b - 1 {
          assert MaxAt(cmp, s, j + 1);
        }
      }
    }
  }

  /**
   * `MyArrayList(sizeCapacity)`: rejects a non-positive initial capacity;
   * otherwise an empty list over a store of exactly that length.
   */
  method NewWithCapacity<T(==)>(sizeCapacity: int) returns (r: Result<MyArrayList<T>>)
    ensures r.Failure? <==> sizeCapacity <= 0
    ensures r.Failure? ==> r.error == IllegalArgument
    ensures r.Success? ==>
              && fresh(r.value) && fresh(r.value.data) && r.value.Valid()
              && r.value.data.Length == sizeCapacity && r.value.capacity == DefaultCapacity
              && r.value.Contents == []
  {
    if sizeCapacity <= 0 {
      return Failure(IllegalArgument);
    }
    var list := new MyArrayList<T>.Sized(sizeCapacity);
    r := Success(list);
  }
}
