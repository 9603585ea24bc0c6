/**
 * The meaning shared by both list containers: the `MyList` operations
 * (MyList.java) described on the sequence of elements a list holds, and the
 * datatypes that stand for Java's `null` and for the exceptions the
 * operations throw.
 */
module ListSpec {

  /** A slot of a Java `Object[]`: `None` is `null`. */
  datatype Option<T> = None | Some(value: T)

  /** The exceptions the two containers raise. */
  datatype ListError =
    | IndexOutOfBounds       // IndexOutOfBoundsException thrown by an explicit index check
    | ArrayIndexOutOfBounds  // ArrayIndexOutOfBoundsException raised by the JVM on an array access or copy
    | IllegalArgument        // IllegalArgumentException for a non-positive initial capacity

  /** The outcome of an operation that returns a value or throws. */
  datatype Result<T> = Success(value: T) | Failure(error: ListError)

  /** The outcome of a `void` operation that may throw. */
  datatype Outcome = Pass | Fail(error: ListError)

  /** `s` after `add(i, x)`: `x` lands at position `i` and the elements from `i` on move one place later. */
  function InsertedAt<T>(s: seq<T>, i: nat, x: T): (r: seq<T>)
    requires i <= |s|
    ensures |r| == |s| + 1 && r[i] == x
    ensures forall k :: 0 <= k < i ==> r[k] == s[k]
    ensures forall k :: i < k < |r| ==> r[k] == s[k - 1]
  {
    s[..i] + [x] + s[i..]
  }

  /** `s` after `remove(i)`: the element at `i` is gone and the ones after it move one place earlier. */
  function RemovedAt<T>(s: seq<T>, i: nat): (r: seq<T>)
    requires i < |s|
    ensures |r| == |s| - 1
    ensures forall k :: 0 <= k < i ==> r[k] == s[k]
    ensures forall k :: i <= k < |r| ==> r[k] == s[k + 1]
  {
    s[..i] + s[i + 1..]
  }

  /** Position of the first element equal to `x`, scanning from the front. */
  function FirstIndexOf<T(==)>(s: seq<T>, x: T): (r: Option<nat>)
    ensures r.None? <==> x !in s
    ensures r.Some? ==> r.value < |s| && s[r.value] == x && x !in s[..r.value]
  {
    if |s| == 0 then None
    else if s[0] == x then Some(0)
    else
      match FirstIndexOf(s[1..], x)
      case None => None
      case Some(k) =>
        assert s[1..][..k] == s[1..k + 1];
        assert s[..k + 1] == [s[0]] + s[1..k + 1];
        Some(k + 1)
  }

  /** `s` after `remove(x)`: its first occurrence of `x` is deleted, if there is one. */
  function RemovedFirst<T(==)>(s: seq<T>, x: T): seq<T>
  {
    match FirstIndexOf(s, x)
    case None => s
    case Some(k) => RemovedAt(s, k)
  }

  /** Inserting at `i` and then removing at `i` gives back the original sequence. */
  lemma RemovedAtInsertedAt<T>(s: seq<T>, i: nat, x: T)
    requires i <= |s|
    ensures RemovedAt(InsertedAt(s, i, x), i) == s
  {
    var r := RemovedAt(InsertedAt(s, i, x), i);
    assert |r| == |s|;
    forall k | 0 <= k < |s| ensures r[k] == s[k] {}
  }

  /** Removing at `i` and then inserting the removed element at `i` gives back the original sequence. */
  lemma InsertedAtRemovedAt<T>(s: seq<T>, i: nat)
    requires i < |s|
    ensures InsertedAt(RemovedAt(s, i), i, s[i]) == s
  {
    var r := InsertedAt(RemovedAt(s, i), i, s[i]);
    assert |r| == |s|;
    forall k | 0 <= k < |s| ensures r[k] == s[k] {}
  }

  /** `add(x)` is `add(size(), x)`. */
  lemma AppendIsInsertAtEnd<T>(s: seq<T>, x: T)
    ensures InsertedAt(s, |s|, x) == s + [x]
  {
    assert s[..|s|] == s;
  }

  /** Insertion adds exactly one occurrence of the new element and keeps every other element. */
  lemma InsertedAtMultiset<T>(s: seq<T>, i: nat, x: T)
    requires i <= |s|
    ensures multiset(InsertedAt(s, i, x)) == multiset(s) + multiset{x}
  {
    assert s == s[..i] + s[i..];
  }

  /** Removal at `i` takes away exactly one occurrence of `s[i]` and keeps every other element. */
  lemma RemovedAtMultiset<T>(s: seq<T>, i: nat)
    requires i < |s|
    ensures multiset(RemovedAt(s, i)) == multiset(s) - multiset{s[i]}
  {
    assert s == s[..i] + [s[i]] + s[i + 1..];
  }

  /**
   * `remove(x)` deletes exactly the first occurrence of `x` (one fewer `x`, nothing
   * else touched) when there is one, and leaves the sequence as it is otherwise.
   */
  lemma RemovedFirstSpec<T>(s: seq<T>, x: T)
    ensures x !in s ==> RemovedFirst(s, x) == s
    ensures x in s ==> |RemovedFirst(s, x)| == |s| - 1
    ensures multiset(RemovedFirst(s, x)) == multiset(s) - multiset{x}
    ensures forall k :: 0 <= k < |s| && (forall i :: 0 <= i <= k ==> s[i] != x) ==> RemovedFirst(s, x)[k] == s[k]
  {
    match FirstIndexOf(s, x)
    case None =>
      assert multiset(s)[x] == 0;
    case Some(k) =>
      RemovedAtMultiset(s, k);
  }

  /** Exchanging the elements at `i` and `j` keeps the multiset of elements. */
  lemma SwappedMultiset<T>(s: seq<T>, i: nat, j: nat)
    requires i < j < |s|
    ensures multiset(s[i := s[j]][j := s[i]]) == multiset(s)
  {
    var t := s[i := s[j]][j := s[i]];
    assert s == s[..i] + [s[i]] + s[i + 1..j] + [s[j]] + s[j + 1..];
    assert t == s[..i] + [s[j]] + s[i + 1..j] + [s[i]] + s[j + 1..];
  }
}
