/** The kernel's singly linked queue with a sentinel head and a tail pointer (src/linked_list.h). Its
    nodes come from malloc and go back by free; the methods take the heap and return it. */
module LinkedLists {
  import opened Seqs
  import H = HeapModel

  class Node<T(0)> {
    var data: T
    var next: Node?<T>
    var at: int     // the address malloc returned
  }

  class LinkedList<T(==, 0)> {
    const head: Node<T>
    const nodeSize: H.Size
    var tail: Node<T>

    /** The queue as a sequence, its nodes' addresses, the nodes behind the sentinel, and the nodes
        given back to the allocator. */
    ghost var Contents: seq<T>
    ghost var Addresses: seq<int>
    ghost var Spine: seq<Node<T>>
    ghost var Freed: set<Node<T>>
    ghost var Repr: set<object>

    /** The chain from the sentinel is `Spine`, acyclic, ends in `tail`, and meets no freed node. */
    ghost predicate Valid()
      reads this, Repr
      ensures Valid() ==> this in Repr
    {
      && this in Repr
      && (forall i {:trigger Spine[i]} :: 0 <= i < |Spine| ==> Spine[i] in Repr)
      && |Spine| == |Contents| + 1
      && |Addresses| == |Contents|
      && Spine[0] == head
      && Spine[|Spine| - 1] == tail
      && tail.next == null
      && Distinct(Spine)
      && (forall i {:trigger Spine[i].next} :: 0 <= i < |Spine| - 1 ==> Spine[i].next == Spine[i + 1])
      && (forall i {:trigger Contents[i]} {:trigger Addresses[i]} :: 0 <= i < |Contents| ==>
            Spine[i + 1].data == Contents[i] && Spine[i + 1].at == Addresses[i])
      && (forall n :: n in Spine ==> n !in Freed)
    }

    constructor (nodeSize: H.Size)
      ensures Valid() && Contents == [] && Freed == {} && this.nodeSize == nodeSize
      ensures fresh(Repr)
    {
      var sentinel := new Node<T>;
      sentinel.next := null;
      head, tail, this.nodeSize := sentinel, sentinel, nodeSize;
      Contents, Addresses, Spine, Freed := [], [], [sentinel], {};
      Repr := {this, sentinel};
    }

    method IsEmpty() returns (empty: bool)
      requires Valid()
      ensures empty <==> Contents == []
    {
      empty := head.next == null;
      assert Contents != [] ==> Spine[0].next == Spine[1];
    }

    /** insert / push_back: malloc the node and link it; a malloc that halts links nothing. */
    method PushBack(elem: T, heap: H.State) returns (after: H.State, ghost node: Option<int>)
      requires Valid()
      modifies Repr
      ensures Valid() && Freed == old(Freed)
      ensures (after, node) == H.Malloc(heap, nodeSize)
      ensures Contents == (if node.Some? then old(Contents) + [elem] else old(Contents))
      ensures Addresses == (if node.Some? then old(Addresses) + [node.value] else old(Addresses))
      ensures old(Spine) <= Spine
      ensures fresh(Repr - old(Repr)) && old(Repr) <= Repr
    {
      var (h, p) := H.Malloc(heap, nodeSize);
      after, node := h, p;
      if p.None? {
        return;
      }
      var cur := new Node<T>;
      cur.data, cur.next, cur.at := elem, null, p.value;
      tail.next := cur;
      tail := cur;
      Repr := Repr + {cur};
      Spine := Spine + [cur];
      Contents := Contents + [elem];
      Addresses := Addresses + [p.value];
    }

    /** Unlink the node behind `prev`, which sits at position `k` of the chain; it is to be freed. */
    method Unlink(prev: Node<T>, cur: Node<T>, ghost k: nat)
      requires Valid() && k < |Contents| && prev == Spine[k] && cur == Spine[k + 1]
      modifies Repr
      ensures Valid()
      ensures Contents == old(Splice(Contents, k)) && Addresses == old(Splice(Addresses, k))
      ensures Spine == old(Splice(Spine, k + 1)) && Repr == old(Repr)
      ensures Freed == old(Freed) + {cur}
      ensures cur.next == old(cur.next) && cur.at == old(Addresses[k])
    {
      ghost var spine, contents, nodes := Spine, Contents, Addresses;
      assert cur.at == nodes[k];
      assert k + 2 < |spine| ==> spine[k + 1].next == spine[k + 2];
      assert tail == cur <==> k + 2 == |spine|;
      prev.next := cur.next;
      if tail == cur {
        tail := prev;
      }
      Spine, Contents, Addresses := Splice(spine, k + 1), Splice(contents, k), Splice(nodes, k);
      Freed := Freed + {cur};
    }

    /** remove; `found == false` is the source's fatal("elem not found"). */
    method Remove(elem: T, heap: H.State) returns (found: bool, after: H.State)
      requires Valid()
      modifies Repr
      ensures Valid()
      ensures found <==> elem in old(Contents)
      ensures Contents == Without(old(Contents), elem)
      ensures var k := Position(old(Contents), elem);
              if found then Addresses == Splice(old(Addresses), k) && after == H.Free(heap, old(Addresses)[k])
              else Contents == old(Contents) && Addresses == old(Addresses) && after == heap
      ensures Freed == old(Freed) + Gone(old(Spine), Spine)
      ensures Repr == old(Repr)
    {
      after := heap;
      var prev := head;
      var cur := head.next;
      ghost var k := 0;
      while cur != null
        invariant Valid() && Contents == old(Contents) && Addresses == old(Addresses)
        invariant Spine == old(Spine) && Freed == old(Freed) && Repr == old(Repr) && after == heap
        invariant k <= |Contents| && prev == Spine[k] && cur == prev.next
        invariant elem !in Contents[..k]
        decreases |Contents| - k
      {
        NextOnChain(k);
        if cur.data == elem {
          WithoutSplices(Contents, elem, k);
          GoneSplice(Spine, k + 1);
          Unlink(prev, cur, k);
          return true, H.Free(heap, cur.at);
        }
        prev := cur;
        cur := cur.next;
        k := k + 1;
      }
      NextOnChain(k);
      WithoutAbsent(Contents, elem);
      return false, after;
    }

    /** A node's successor is the next node of the chain, or null at its end. */
    lemma NextOnChain(k: nat)
      requires Valid() && k <= |Contents|
      ensures k < |Contents| ==> Spine[k].next == Spine[k + 1] && Spine[k + 1].data == Contents[k]
      ensures Spine[k].next == null <==> k == |Contents|
    {
    }

    /** filter: keep, in order, the elements that satisfy `keep`, freeing each other node in turn; a
        free that halts ends it. */
    method Filter(keep: T -> bool, heap: H.State) returns (after: H.State)
      requires Valid() && !heap.halted
      modifies Repr
      ensures Valid()
      ensures (Addresses, after) == Sift(old(Contents), old(Addresses), keep, 0, heap)
      ensures !after.halted ==> Contents == Keep(old(Contents), keep)
      ensures Repr == old(Repr)
      ensures Freed == old(Freed) + Gone(old(Spine), Spine)
    {
      after := heap;
      var prev := head;
      var cur := head.next;
      ghost var k := 0;
      while cur != null && !after.halted
        invariant Valid() && Repr == old(Repr)
        invariant k <= |Contents| && prev == Spine[k] && cur == prev.next
        invariant Sift(Contents, Addresses, keep, k, after) == Sift(old(Contents), old(Addresses), keep, 0, heap)
        invariant Contents[..k] + Keep(Contents[k..], keep) == Keep(old(Contents), keep)
        invariant Freed == old(Freed) + Gone(old(Spine), Spine)
        invariant forall n :: n in Spine ==> n in old(Spine)
        decreases |Contents| - k
      {
        NextOnChain(k);
        if !keep(cur.data) {
          GoneSplice(Spine, k + 1);
          GoneAgain(old(Spine), Spine, Splice(Spine, k + 1));
          KeepSplice(Contents, keep, k);
          Unlink(prev, cur, k);
          after := H.Free(after, cur.at);
          cur := prev.next;
        } else {
          KeepNext(Contents, keep, k);
          prev := cur;
          cur := cur.next;
          k := k + 1;
        }
      }
      NextOnChain(k);
      assert k == |Contents| ==> Contents[..k] + Keep(Contents[k..], keep) == Contents;
    }

    /** Overwrite the element of the chain's node `k + 1` in place, as for_each's callback does. */
    method Update(cur: Node<T>, value: T, ghost k: nat)
      requires Valid() && k < |Contents| && cur == Spine[k + 1]
      modifies Repr
      ensures Valid() && Contents == old(Contents)[k := value] && Addresses == old(Addresses)
      ensures Spine == old(Spine) && Freed == old(Freed) && Repr == old(Repr)
    {
      cur.data := value;
      Contents := Contents[k := value];
    }

    /** for_each with a callback that only maps the element. */
    method ForEach(f: T -> T)
      requires Valid()
      modifies Repr
      ensures Valid() && Spine == old(Spine) && Addresses == old(Addresses)
      ensures Freed == old(Freed) && Repr == old(Repr)
      ensures Contents == seq(|old(Contents)|, i requires 0 <= i < |old(Contents)| => f(old(Contents)[i]))
    {
      var cur := head.next;
      ghost var k := 0;
      NextOnChain(0);
      while cur != null
        invariant Valid() && Spine == old(Spine) && Addresses == old(Addresses)
        invariant Freed == old(Freed) && Repr == old(Repr)
        invariant k <= |Contents| == |old(Contents)| && cur == Spine[k].next
        invariant forall i :: 0 <= i < k ==> Contents[i] == f(old(Contents)[i])
        invariant forall i :: k <= i < |Contents| ==> Contents[i] == old(Contents)[i]
        decreases |Contents| - k
      {
        NextOnChain(k);
        Update(cur, f(cur.data), k);
        cur := cur.next;
        k := k + 1;
      }
      NextOnChain(k);
    }

    /** pop_front; `None` is the source's fatal("Empty queue to pop"). */
    method PopFront(heap: H.State) returns (front: Option<T>, after: H.State)
      requires Valid()
      modifies Repr
      ensures Valid()
      ensures old(Contents) == [] ==>
                front == None && Contents == [] && Addresses == old(Addresses) && Spine == old(Spine) && after == heap
      ensures old(Contents) != [] ==>
                && front == Some(old(Contents)[0]) && Contents == old(Contents)[1..]
                && Addresses == old(Addresses)[1..] && after == H.Free(heap, old(Addresses)[0])
      ensures Freed == old(Freed) + Gone(old(Spine), Spine)
      ensures Repr == old(Repr)
    {
      after := heap;
      var empty := IsEmpty();
      if empty {
        return None, after;
      }
      NextOnChain(0);
      var p := head.next;
      front := Some(p.data);
      GoneSplice(Spine, 1);
      assert Splice(Contents, 0) == Contents[1..] && Splice(Addresses, 0) == Addresses[1..];
      Unlink(head, p, 0);
      after := H.Free(heap, p.at);
    }
  }

  /** The nodes and the heap that filter leaves, from position `k` on. */
  function Sift<T>(contents: seq<T>, nodes: seq<int>, keep: T -> bool, k: nat, heap: H.State): (seq<int>, H.State)
    requires |nodes| == |contents|
    decreases |contents| - k
  {
    if heap.halted || k >= |contents| then (nodes, heap)
    else if keep(contents[k]) then Sift(contents, nodes, keep, k + 1, heap)
    else Sift(Splice(contents, k), Splice(nodes, k), keep, k, H.Free(heap, nodes[k]))
  }

  lemma GoneSplice<T>(s: seq<T>, k: nat)
    requires k < |s| && Distinct(s)
    ensures Gone(s, Splice(s, k)) == {s[k]}
    ensures forall n :: n in Splice(s, k) ==> n in s
  {
    forall n | n in s && n != s[k] ensures n in Splice(s, k) {
      var i :| 0 <= i < |s| && s[i] == n;
      assert Splice(s, k)[if i < k then i else i - 1] == n;
    }
  }

  lemma GoneAgain<T>(a: seq<T>, b: seq<T>, c: seq<T>)
    requires (forall n :: n in b ==> n in a) && (forall n :: n in c ==> n in b)
    ensures Gone(a, c) == Gone(a, b) + Gone(b, c)
  {
  }

  lemma {:induction false} WithoutAbsent<T>(s: seq<T>, x: T)
    requires x !in s
    ensures Without(s, x) == s
  {
    if s != [] {
      WithoutAbsent(s[1..], x);
    }
  }

  lemma KeepSplice<T>(s: seq<T>, keep: T -> bool, k: nat)
    requires k < |s| && !keep(s[k])
    ensures Splice(s, k)[..k] + Keep(Splice(s, k)[k..], keep) == s[..k] + Keep(s[k..], keep)
  {
    assert Splice(s, k)[..k] == s[..k] && Splice(s, k)[k..] == s[k..][1..];
  }

  lemma KeepNext<T>(s: seq<T>, keep: T -> bool, k: nat)
    requires k < |s| && keep(s[k])
    ensures s[..k + 1] + Keep(s[k + 1..], keep) == s[..k] + Keep(s[k..], keep)
  {
    assert s[k..][1..] == s[k + 1..];
  }
}
