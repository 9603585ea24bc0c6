/**
 * `MyLinkedList` (MyLinkedList.java): a doubly linked chain of nodes with
 * `head`, `tail` and a `size` counter. The ghost sequence `Nodes` lists the
 * chain from head to tail and `Contents` the elements the nodes hold.
 */
module LinkedList {
  import opened ListSpec
  import opened Ordering

  /** `Node<T>`: one element with links to its neighbours. */
  class Node<T> {
    var data: T
    var next: Node?<T>
    var prev: Node?<T>

    /** `Node(elm)`: an unlinked node holding `elm`. */
    constructor (elm: T)
      ensures data == elm && next == null && prev == null
    {
      data := elm;
      next := null;
      prev := null;
    }
  }

  class MyLinkedList<T(==)> {
    var head: Node?<T>
    var tail: Node?<T>
    var size: nat
    /** The nodes of the chain, from `head` to `tail`. */
    ghost var Nodes: seq<Node<T>>
    /** The elements, from `head` to `tail`. */
    ghost var Contents: seq<T>

    /**
     * `head` and `tail` are the ends of a chain of `size` distinct nodes whose
     * `next` and `prev` links agree, and the nodes hold `Contents` in order.
     */
    ghost predicate Valid()
      reads this, Nodes
    {
      && size == |Nodes| == |Contents|
      && (|Nodes| == 0 ==> head == null && tail == null)
      && (|Nodes| > 0 ==>
            && head == Nodes[0] && tail == Nodes[|Nodes| - 1]
            && Nodes[0].prev == null && Nodes[|Nodes| - 1].next == null)
      && (forall i, j :: 0 <= i && j == i + 1 && j < |Nodes| ==> Nodes[i].next == Nodes[j] && Nodes[j].prev == Nodes[i])
      && (forall i :: 0 <= i < |Nodes| ==> Nodes[i].data == Contents[i])
      && (forall i, j :: 0 <= i < j < |Nodes| ==> Nodes[i] != Nodes[j])
    }

    /** The implicit `MyLinkedList()`: no nodes. */
    constructor ()
      ensures Valid() && Nodes == [] && Contents == []
    {
      head := null;
      tail := null;
      size := 0;
      Nodes := [];
      Contents := [];
    }

    /** `getNodeAtIndex(index)`: the node reached after `index` steps forward from `head`. */
    method GetNodeAtIndex(index: int) returns (r: Result<Node<T>>)
      requires Valid()
      ensures index < 0 || |Nodes| <= index ==> r == Failure(IndexOutOfBounds)
      ensures 0 <= index < |Nodes| ==> r == Success(Nodes[index])
    {
      if index < 0 || index >= size {
        return Failure(IndexOutOfBounds);
      }
      var current := head;
      for i := 0 to index
        invariant current == Nodes[i]
      {
        current := current.next;
      }
      return Success(current);
    }

    /**
     * `delete(node)`: unlinks the node at position `k`, as the head (the next
     * node loses its `prev`, or the list becomes empty), as the tail (the
     * previous node loses its `next`), or by joining its two neighbours.
     */
    method Delete(node: Node<T>, ghost k: nat)
      requires Valid() && k < |Nodes| && Nodes[k] == node
      modifies this, Nodes`next, Nodes`prev
      ensures Valid()
      ensures Nodes == RemovedAt(old(Nodes), k) && Contents == RemovedAt(old(Contents), k)
    {
      if head == node {
        assert k == 0 && head.next == if |Nodes| > 1 then Nodes[1] else null;
        head := head.next;
        if head != null {
          head.prev := null;
        } else {
          tail := null;
        }
      } else if tail == node {
        assert 0 < k && tail.prev == Nodes[k - 1];
        tail := tail.prev;
        tail.next := null;
      } else {
        assert 0 < k < |Nodes| - 1 && node.prev == Nodes[k - 1] && node.next == Nodes[k + 1];
        node.prev.next := node.next;
        node.next.prev := node.prev;
      }
      size := size - 1;
      Nodes := RemovedAt(Nodes, k);
      Contents := RemovedAt(Contents, k);
    }

    /** `findNode(elm)`: the first node from `head` whose element equals `elm`. */
    method FindNode(elm: T) returns (r: Option<Node<T>>)
      requires Valid()
      ensures FirstIndexOf(Contents, elm).None? ==> r == None
      ensures FirstIndexOf(Contents, elm).Some? ==> r == Some(Nodes[FirstIndexOf(Contents, elm).value])
    {
      var iter := head;
      ghost var i := 0;
      while iter != null
        invariant 0 <= i <= |Nodes|
        invariant iter == if i < |Nodes| then Nodes[i] else null
        invariant elm !in Contents[..i]
        decreases |Nodes| - i
      {
        if iter.data == elm {
          assert Contents[i] == elm;
          return Some(iter);
        }
        assert Contents[..i + 1] == Contents[..i] + [Contents[i]];
        iter := iter.next;
        i := i + 1;
      }
      assert Contents[..i] == Contents;
      return None;
    }

    /**
     * `add(idx, elm)`: inserts `elm` before position `idx`. At `idx == size`
     * this is `add(elm)`; at 0 the new node goes before `head`; otherwise it
     * is linked in after the node at `idx - 1`, which always has a successor.
     */
    method AddAt(idx: int, elm: T) returns (r: Outcome)
      requires Valid()
      modifies this, Nodes`next, Nodes`prev
      ensures Valid()
      ensures r.Pass? <==> 0 <= idx <= old(size)
      ensures r.Fail? ==> r == Fail(IndexOutOfBounds) && unchanged(this) && unchanged(Nodes)
      ensures r.Pass? ==>
                && Contents == InsertedAt(old(Contents), idx, elm)
                && |Nodes| == |old(Nodes)| + 1 && fresh(Nodes[idx])
                && Nodes == InsertedAt(old(Nodes), idx, Nodes[idx])
      ensures r.Pass? && idx < old(size) ==> tail == old(tail)
    {
      if idx > size || idx < 0 {
        return Fail(IndexOutOfBounds);
      }
      ghost var linked: Node<T>;
      if idx == size {
        Add(elm);
        linked := Nodes[idx];
        AppendIsInsertAtEnd(old(Contents), elm);
        AppendIsInsertAtEnd(old(Nodes), linked);
      } else {
        var newNode := new Node(elm);
        linked := newNode;
        if idx == 0 {
          LinkFirst(newNode);
        } else {
          var found := GetNodeAtIndex(idx - 1);
          LinkAfter(found.value, newNode, idx - 1);
        }
      }
      assert Nodes == InsertedAt(old(Nodes), idx, linked) && fresh(linked);
      r := Pass;
    }

    /**
     * The `idx == 0` branch of `add(idx, elm)` on a non-empty list, with its
     * `size++`: `newNode` goes before `head`.
     */
    method LinkFirst(newNode: Node<T>)
      requires Valid() && 0 < |Nodes| && newNode !in Nodes
      requires newNode.next == null && newNode.prev == null
      modifies this, newNode, Nodes`prev
      ensures Valid() && tail == old(tail)
      ensures Nodes == InsertedAt(old(Nodes), 0, newNode)
      ensures Contents == InsertedAt(old(Contents), 0, old(newNode.data))
    {
      newNode.next := head;
      if head != null {
        head.prev := newNode;
      }
      head := newNode;
      size := size + 1;
      Nodes := [newNode] + Nodes;
      Contents := [newNode.data] + Contents;
    }

    /**
     * The remaining branch of `add(idx, elm)`, with its `size++`: `newNode`
     * is linked in after `prevNode`, the node at position `k`, which is not
     * the last one.
     */
    method LinkAfter(prevNode: Node<T>, newNode: Node<T>, ghost k: nat)
      requires Valid() && k + 1 < |Nodes| && Nodes[k] == prevNode && newNode !in Nodes
      requires newNode.next == null && newNode.prev == null
      modifies this, newNode, Nodes`next, Nodes`prev
      ensures Valid() && tail == old(tail)
      ensures Nodes == InsertedAt(old(Nodes), k + 1, newNode)
      ensures Contents == InsertedAt(old(Contents), k + 1, old(newNode.data))
    {
      ghost var before := Nodes;
      assert prevNode.next == Nodes[k + 1];
      newNode.next := prevNode.next;
      newNode.prev := prevNode;
      prevNode.next := newNode;
      if newNode.next != null {
        newNode.next.prev := newNode;
      } else {
        // `tail = newNode` in `add(idx, elm)`: `prevNode` is not the last node
        assert false;
      }
      size := size + 1;
      Nodes := InsertedAt(Nodes, k + 1, newNode);
      Contents := InsertedAt(Contents, k + 1, newNode.data);
      forall i, j | 0 <= i && j == i + 1 && j < |Nodes|
        ensures Nodes[i].next == Nodes[j] && Nodes[j].prev == Nodes[i]
      {
        if i < k {
          assert Nodes[i] == before[i] && Nodes[j] == before[j];
        } else if k + 1 < i {
          assert Nodes[i] == before[i - 1] && Nodes[j] == before[j - 1];
        }
      }
    }

    /** `add(elm)`: links a new node after `tail`, or makes it the only node of an empty list. */
    method Add(elm: T)
      requires Valid()
      modifies this, Nodes`next
      ensures Valid()
      ensures Contents == old(Contents) + [elm]
      ensures |Nodes| == |old(Nodes)| + 1 && fresh(Nodes[|Nodes| - 1])
      ensures Nodes == old(Nodes) + [Nodes[|Nodes| - 1]] && tail == Nodes[|Nodes| - 1]
    {
      var newNode := new Node(elm);
      if head == null {
        head := newNode;
        tail := newNode;
      } else {
        tail.next := newNode;
        newNode.prev := tail;
        tail := newNode;
      }
      size := size + 1;
      Nodes := Nodes + [newNode];
      Contents := Contents + [elm];
    }

    /** `get(idx)`: the element at `idx`; `getNodeAtIndex` rejects a negative index. */
    method Get(idx: int) returns (r: Result<T>)
      requires Valid()
      ensures idx < 0 || |Contents| <= idx ==> r == Failure(IndexOutOfBounds)
      ensures 0 <= idx < |Contents| ==> r == Success(Contents[idx])
    {
      if idx >= size {
        return Failure(IndexOutOfBounds);
      }
      var node := GetNodeAtIndex(idx);
      if node.Failure? {
        return Failure(node.error);
      }
      r := Success(node.value.data);
    }

    /**
     * `clean()`: cuts the head's `next` link and drops `head`, but leaves
     * `size` and `tail` as they were. The list is meant to be empty
     * afterwards (`Nodes` and `Contents` become empty), so the invariant
     * breaks whenever the list held anything.
     */
    method Clean()
      requires Valid()
      modifies this, Nodes`next
      ensures head == null && size == old(size) && tail == old(tail)
      ensures old(head) != null ==> old(head).next == null
      ensures Nodes == [] && Contents == []
      ensures Valid() <==> old(size) == 0
    {
      if head != null {
        while head.next != null
          modifies head`next
          decreases if head.next == null then 0 else 1
        {
          head.next := null;
        }
        head := null;
      }
      Nodes := [];
      Contents := [];
    }

    /** `remove(idx)`: unlinks the node at `idx` and returns its element. */
    method RemoveAt(idx: int) returns (r: Result<T>)
      requires Valid()
      modifies this, Nodes`next, Nodes`prev
      ensures Valid()
      ensures idx < 0 || old(size) <= idx ==> r == Failure(IndexOutOfBounds) && unchanged(this) && unchanged(Nodes)
      ensures 0 <= idx < old(size) ==>
                && r == Success(old(Contents)[idx])
                && Contents == RemovedAt(old(Contents), idx)
                && Nodes == RemovedAt(old(Nodes), idx)
    {
      if idx < 0 || idx >= size {
        return Failure(IndexOutOfBounds);
      }
      var current := GetNodeAtIndex(idx);
      var node := current.value;
      Delete(node, idx);
      r := Success(node.data);
    }

    /** `remove(elm)`: unlinks the first node holding `elm`, reporting whether there was one. */
    method Remove(elm: T) returns (removed: bool)
      requires Valid()
      modifies this, Nodes`next, Nodes`prev
      ensures Valid()
      ensures removed <==> elm in old(Contents)
      ensures Contents == RemovedFirst(old(Contents), elm)
      ensures removed ==> Nodes == RemovedAt(old(Nodes), FirstIndexOf(old(Contents), elm).value)
      ensures !removed ==> unchanged(this) && unchanged(Nodes)
    {
      var node := FindNode(elm);
      if node.Some? {
        Delete(node.value, FirstIndexOf(Contents, elm).value);
        return true;
      }
      return false;
    }

    /**
     * `sort(comparator)`: an exchange sort over the chain that, for each node
     * from `head` on, swaps its element with that of every later node the
     * comparator puts before it. Only the `data` fields change.
     */
    method Sort(cmp: (T, T) -> int)
      requires Valid() && TotalPreorderOn(cmp, Contents)
      modifies this`Contents, Nodes`data
      ensures Valid()
      ensures Nodes == old(Nodes) && head == old(head) && tail == old(tail) && size == old(size)
      ensures multiset(Contents) == multiset(old(Contents))
      ensures Sorted(cmp, Contents)
    {
      if size > 1 {
        var i := head;
        ghost var a := 0;
        while i != null
          invariant 0 <= a <= |Nodes| && i == if a < |Nodes| then Nodes[a] else null
          invariant Valid()
          invariant multiset(Contents) == multiset(old(Contents))
          invariant PrefixSettled(cmp, Contents, a)
          decreases |Nodes| - a
        {
          ExchangePass(cmp, i, a, old(Contents));
          i := i.next;
          a := a + 1;
        }
      }
      assert SortedPairwise(cmp, Contents);
    }

    /**
     * One round of the outer loop of `sort`, the inner loop from `i.next` to
     * the end: node `i`, at position `a`, ends up holding an element ordered
     * before every later one, so one more position is settled. `s0` is the
     * list before sorting.
     */
    method ExchangePass(cmp: (T, T) -> int, i: Node<T>, ghost a: nat, ghost s0: seq<T>)
      requires Valid() && a < |Nodes| && Nodes[a] == i
      requires TotalPreorderOn(cmp, s0) && multiset(Contents) == multiset(s0)
      requires PrefixSettled(cmp, Contents, a)
      modifies this`Contents, Nodes`data
      ensures Valid()
      ensures multiset(Contents) == multiset(s0)
      ensures PrefixSettled(cmp, Contents, a + 1)
    {
      var j := i.next;
      ghost var b := a + 1;
      while j != null
        invariant a < b <= |Nodes| && j == if b < |Nodes| then Nodes[b] else null
        invariant Valid()
        invariant multiset(Contents) == multiset(s0)
        invariant PrefixSettled(cmp, Contents, a)
        invariant MinBefore(cmp, Contents, a, b)
        decreases |Nodes| - b
      {
        OrderPair(cmp, i, j, a, b, s0);
        assert j.next == if b + 1 < |Nodes| then Nodes[b + 1] else null;
        j := j.next;
        b := b + 1;
      }
      SettleNext(cmp, Contents, a);
    }

    /**
     * The body of the inner loop of `sort`: the elements of `i` (position `a`)
     * and `j` (position `b`) are exchanged when the comparator puts them out
     * of order, which extends the minimum at `a` over position `b`.
     */
    method OrderPair(cmp: (T, T) -> int, i: Node<T>, j: Node<T>, ghost a: nat, ghost b: nat, ghost s0: seq<T>)
      requires Valid() && a < b < |Nodes| && Nodes[a] == i && Nodes[b] == j
      requires TotalPreorderOn(cmp, s0) && multiset(Contents) == multiset(s0)
      requires PrefixSettled(cmp, Contents, a) && MinBefore(cmp, Contents, a, b)
      modifies this`Contents, Nodes`data
      ensures Valid()
      ensures multiset(Contents) == multiset(s0)
      ensures PrefixSettled(cmp, Contents, a) && MinBefore(cmp, Contents, a, b + 1)
    {
      if cmp(i.data, j.data) > 0 {
        ghost var before := Contents;
        SwapData(i, j, a, b);
        ExchangeStep(cmp, s0, before, Contents, a, b);
      } else {
        KeepOrderStep(cmp, Contents, a, b);
      }
    }

    /** The exchange of two nodes' elements through a temporary in `sort`. */
    method SwapData(i: Node<T>, j: Node<T>, ghost a: nat, ghost b: nat)
      requires Valid() && a < b < |Nodes| && Nodes[a] == i && Nodes[b] == j
      modifies this`Contents, Nodes`data
      ensures Valid()
      ensures Contents == old(Contents)[a := old(Contents)[b]][b := old(Contents)[a]]
    {
      var tmp := i.data;
      i.data := j.data;
      j.data := tmp;
      Contents := Contents[a := Contents[b]][b := Contents[a]];
    }

    /** `size()`: the number of elements. */
    method Size() returns (n: nat)
      requires Valid()
      ensures n == |Contents|
    {
      n := size;
    }

    /** `contains(elm)`: whether some node holds `elm`. */
    method Contains(elm: T) returns (found: bool)
      requires Valid()
      ensures found <==> elm in Contents
    {
      var node := FindNode(elm);
      found := node.Some?;
    }

    /** `toArray()`: a new array of length `size` holding the elements from `head` to `tail`. */
    method ToArray() returns (a: array<Option<T>>)
      requires Valid()
      ensures fresh(a) && a.Length == |Contents|
      ensures forall k :: 0 <= k < a.Length ==> a[k] == Some(Contents[k])
    {
      a := new Option<T>[size](_ => None);
      var i := 0;
      var elm := head;
      while elm != null
        invariant 0 <= i <= size && elm == if i < size then Nodes[i] else null
        invariant forall k :: 0 <= k < i ==> a[k] == Some(Contents[k])
        decreases size - i
      {
        a[i] := Some(elm.data);
        i := i + 1;
        elm := elm.next;
      }
    }
  }

  /** Positions before `a` hold their final values: each is ordered before every element after it. */
  ghost predicate PrefixSettled<T>(cmp: (T, T) -> int, s: seq<T>, a: int) {
    forall x, y :: 0 <= x < a && x < y < |s| ==> cmp(s[x], s[y]) <= 0
  }

  /** `s[a]` is ordered before every element at positions `a + 1 .. b - 1`. */
  ghost predicate MinBefore<T>(cmp: (T, T) -> int, s: seq<T>, a: int, b: int) {
    forall y :: a < y < b && y < |s| && 0 <= a ==> cmp(s[a], s[y]) <= 0
  }

  /** Exchanging an out-of-order pair keeps the settled prefix and extends the minimum one place. */
  lemma ExchangeStep<T>(cmp: (T, T) -> int, s0: seq<T>, s: seq<T>, t: seq<T>, a: nat, b: nat)
    requires a < b < |s|
    requires t == s[a := s[b]][b := s[a]]
    requires TotalPreorderOn(cmp, s0) && multiset(s) == multiset(s0)
    requires cmp(s[a], s[b]) > 0
    requires PrefixSettled(cmp, s, a) && MinBefore(cmp, s, a, b)
    ensures multiset(t) == multiset(s0)
    ensures PrefixSettled(cmp, t, a) && MinBefore(cmp, t, a, b + 1)
  {
    SwappedMultiset(s, a, b);
    forall x, y | 0 <= x < a && x < y < |t| ensures cmp(t[x], t[y]) <= 0 {
      if y == a {
        assert cmp(s[x], s[b]) <= 0;
      } else if y == b {
        assert cmp(s[x], s[a]) <= 0;
      }
    }
    TotalPreorderOnPermutation(cmp, s0, s);
    assert s[a] in s && s[b] in s;
    assert cmp(s[b], s[a]) <= 0;
    forall y | a < y < b + 1 ensures cmp(t[a], t[y]) <= 0 {
      if y < b {
        assert s[y] in s;
        assert cmp(s[a], s[y]) <= 0;
      }
    }
  }

  /** Once `s[a]` is ordered before everything after it, position `a` is settled too. */
  lemma SettleNext<T>(cmp: (T, T) -> int, s: seq<T>, a: nat)
    requires a < |s|
    requires PrefixSettled(cmp, s, a) && MinBefore(cmp, s, a, |s|)
    ensures PrefixSettled(cmp, s, a + 1)
  {
  }

  /** Keeping an in-order pair extends the minimum one place. */
  lemma KeepOrderStep<T>(cmp: (T, T) -> int, s: seq<T>, a: nat, b: nat)
    requires a < b < |s|
    requires cmp(s[a], s[b]) <= 0
    requires MinBefore(cmp, s, a, b)
    ensures MinBefore(cmp, s, a, b + 1)
  {
  }
}
