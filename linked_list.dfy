/**
 * The singly linked bid list with a permanent dummy node: `head` is the dummy,
 * `tail` the last node (the dummy when the list is empty), `size` the number of
 * real nodes. Its abstract value is the ghost sequence `Contents` of the bids
 * after the dummy, in link order.
 */
module LinkedList {
  import opened Bids
  import opened ListSpec

  /** One list entry: a bid and its successor. */
  class Node {
    var bid: Bid
    var next: Node?

    constructor (b: Bid)
      ensures bid == b && next == null
    {
      bid := b;
      next := null;
    }
  }

  /** No node occurs twice in `ns`. */
  ghost predicate Distinct(ns: seq<Node>) {
    forall i, j :: 0 <= i < j < |ns| ==> ns[i] != ns[j]
  }

  /** Deleting position `k` of a duplicate-free sequence keeps it duplicate-free. */
  lemma DistinctAfterDelete(ns: seq<Node>, k: nat)
    requires Distinct(ns) && k < |ns|
    ensures Distinct(ns[..k] + ns[k + 1..])
  {
  }

  /** Inserting a node that is not in `ns` right after its first position keeps it duplicate-free. */
  lemma DistinctAfterInsert(ns: seq<Node>, n: Node)
    requires Distinct(ns) && |ns| > 0 && n !in ns
    ensures Distinct([ns[0], n] + ns[1..])
  {
  }

  class BidList {
    var head: Node
    var tail: Node
    var size: int

    // Public view: the bids after the dummy node, in order.
    ghost var Contents: seq<Bid>
    // The chain itself: Nodes[0] is the dummy, Nodes[i + 1] holds Contents[i].
    ghost var Nodes: seq<Node>
    ghost var Repr: set<object>

    /** The object invariant: the chain from `head` is exactly `Nodes`, finite and
        acyclic (distinct nodes, ending in null), `tail` is its last node and
        `size` counts the real nodes. */
    ghost predicate Valid()
      reads this, Repr
      ensures Valid() ==> this in Repr
    {
      this in Repr &&
      |Nodes| == |Contents| + 1 &&
      (forall i :: 0 <= i < |Nodes| ==> Nodes[i] in Repr) &&
      Nodes[0] == head && head.bid.bidId == DummyId &&
      tail == Nodes[|Nodes| - 1] && tail.next == null &&
      (forall i, j :: 0 <= i && j == i + 1 < |Nodes| ==> Nodes[i].next == Nodes[j]) &&
      (forall i :: 0 <= i < |Contents| ==> Nodes[i + 1].bid == Contents[i]) &&
      Distinct(Nodes) &&
      size == |Contents|
    }

    /** The list is empty exactly when `head == tail`, exactly when the dummy has no successor. */
    lemma EmptyIffHeadIsTail()
      requires Valid()
      ensures Contents == [] <==> head == tail
      ensures Contents == [] <==> head.next == null
    {
      if Contents != [] {
        assert Nodes[0] != Nodes[|Nodes| - 1];
        assert head.next == Nodes[1];
      }
    }

    /** A new list holds only the dummy node: `head == tail`, no successor, size 0. */
    constructor ()
      ensures Valid() && fresh(Repr)
      ensures Contents == [] && size == 0
      ensures head == tail && head.next == null && head.bid == DummyBid
    {
      var dummy := new Node(DummyBid);
      head := dummy;
      tail := dummy;
      size := 0;
      Contents := [];
      Nodes := [dummy];
      Repr := {this, dummy};
    }

    /** Links a new node after `tail` and makes it the tail. */
    method Append(b: Bid)
      requires Valid()
      modifies Repr
      ensures Valid() && fresh(Repr - old(Repr))
      ensures Contents == old(Contents) + [b]
      ensures size == old(size) + 1
      ensures fresh(tail) && tail.bid == b && Nodes == old(Nodes) + [tail]
      ensures head == old(head)
      ensures forall i :: 0 <= i < |old(Nodes)| ==> Nodes[i].bid == old(Nodes[i].bid)
    {
      var n := new Node(b);
      tail.next := n;
      tail := n;
      size := size + 1;
      Nodes := Nodes + [n];
      Contents := Contents + [b];
      Repr := Repr + {n};
    }

    /** Links a new node right after the dummy; it becomes the tail only when the list was empty. */
    method Prepend(b: Bid)
      requires Valid()
      modifies Repr
      ensures Valid() && fresh(Repr - old(Repr))
      ensures Contents == [b] + old(Contents)
      ensures size == old(size) + 1
      ensures head == old(head) && fresh(head.next) && head.next.bid == b
      ensures tail == if old(head == tail) then head.next else old(tail)
    {
      var n := new Node(b);
      n.next := head.next;
      head.next := n;
      if head == tail {
        tail := n;
      }
      size := size + 1;
      ghost var ns := Nodes;
      Nodes := [head, n] + ns[1..];
      Contents := [b] + Contents;
      Repr := Repr + {n};
      assert Distinct(Nodes) by {
        DistinctAfterInsert(ns, n);
      }
      forall i | 2 <= i < |Nodes|
        ensures Nodes[i] == ns[i - 1] && Nodes[i] in Repr && Nodes[i] != n
      {
      }
      forall i, j | 0 <= i && j == i + 1 < |Nodes|
        ensures Nodes[i].next == Nodes[j]
      {
        if i >= 2 {
          assert Nodes[i] == ns[i - 1] && Nodes[j] == ns[j - 1];
          assert Nodes[i].next == old(ns[i - 1].next);
        }
      }
    }

    /** The bids after the dummy, in link order, as the printing loop visits them. */
    method Traverse() returns (visited: seq<Bid>)
      requires Valid()
      ensures visited == Contents
    {
      visited := [];
      var cur := head.next;
      ghost var i := 0;
      while cur != null
        invariant 0 <= i <= |Contents|
        invariant cur == if i < |Contents| then Nodes[i + 1] else null
        invariant visited == Contents[..i]
        decreases |Contents| - i
      {
        visited := visited + [cur.bid];
        cur := cur.next;
        i := i + 1;
      }
    }

    /** Scans the real nodes from the dummy's successor and returns the first bid
        with identifier `id`, or `NotFound` when none matches. */
    method Search(id: string) returns (r: Bid)
      requires Valid()
      ensures r == SearchResult(Contents, id)
    {
      var cur := head.next;
      ghost var i := 0;
      while cur != null
        invariant 0 <= i <= |Contents|
        invariant cur == if i < |Contents| then Nodes[i + 1] else null
        invariant forall j :: 0 <= j < i ==> Contents[j].bidId != id
        decreases |Contents| - i
      {
        assert cur.bid == Contents[i];
        if cur.bid.bidId == id {
          assert FirstMatch(Contents, id) == Some(i);
          return cur.bid;
        }
        cur := cur.next;
        i := i + 1;
      }
      return NotFound;
    }

    /** Unlinks the first real node whose bid has identifier `id`; the dummy's
        identifier is refused. The scan asks whether a successor exists before
        reading it, and the tail moves back when the tail is unlinked. Reports
        whether a node was removed. */
    method Remove(id: string) returns (removed: bool)
      requires Valid()
      modifies Repr
      ensures Valid() && Repr == old(Repr)
      ensures removed <==> id != DummyId && HasId(old(Contents), id)
      ensures Contents == if id == DummyId then old(Contents) else RemoveFirst(old(Contents), id)
      ensures size == if removed then old(size) - 1 else old(size)
      ensures head == old(head)
      ensures !removed ==> tail == old(tail) && Nodes == old(Nodes)
    {
      if id == DummyId {
        return false;
      }
      var cur := head;
      ghost var k := 0;
      while cur.next != null && cur.next.bid.bidId != id
        invariant 0 <= k <= |Contents|
        invariant cur == Nodes[k]
        invariant forall j :: 0 <= j < k ==> Contents[j].bidId != id
        decreases |Contents| - k
      {
        cur := cur.next;
        k := k + 1;
      }
      if cur.next == null {
        assert !HasId(Contents, id);
        return false;
      }
      assert Nodes[k].next == Nodes[k + 1] && Nodes[k + 1].bid == Contents[k];
      assert FirstMatch(Contents, id) == Some(k);
      UnlinkSuccessor(cur, k);
      removed := true;
    }

    /** Unlinks the successor of `cur`, the node at position `k` of the chain, and
        moves `tail` back to `cur` when that successor was the tail. */
    method UnlinkSuccessor(cur: Node, ghost k: nat)
      requires Valid()
      requires k < |Contents| && cur == Nodes[k]
      modifies Repr
      ensures Valid() && Repr == old(Repr)
      ensures Contents == old(Contents[..k] + Contents[k + 1..])
      ensures Nodes == old(Nodes[..k + 1] + Nodes[k + 2..])
      ensures size == old(size) - 1
      ensures head == old(head)
      ensures tail == if k + 1 == old(|Contents|) then cur else old(tail)
    {
      ghost var ns := Nodes;
      ghost var cs := Contents;
      var victim := cur.next;
      assert victim == ns[k + 1];
      cur.next := victim.next;
      if victim == tail {
        tail := cur;
      }
      size := size - 1;
      Nodes := ns[..k + 1] + ns[k + 2..];
      Contents := cs[..k] + cs[k + 1..];
      assert Distinct(Nodes) by {
        DistinctAfterDelete(ns, k + 1);
      }
      assert tail == Nodes[|Nodes| - 1] && tail.next == null;
      forall i | 0 <= i < |Nodes|
        ensures Nodes[i] in Repr
      {
        assert Nodes[i] == ns[if i <= k then i else i + 1];
      }
      forall i | 0 <= i < |Contents|
        ensures Nodes[i + 1].bid == Contents[i]
      {
        if i < k {
          assert Nodes[i + 1] == ns[i + 1] && Contents[i] == cs[i];
        } else {
          assert Nodes[i + 1] == ns[i + 2] && Contents[i] == cs[i + 1];
        }
      }
      forall i, j | 0 <= i && j == i + 1 < |Nodes|
        ensures Nodes[i].next == Nodes[j]
      {
        if i < k {
          assert Nodes[i] == ns[i] && Nodes[j] == ns[j] && ns[i] != cur;
          assert ns[i].next == old(ns[i].next);
        } else if i > k {
          assert Nodes[i] == ns[i + 1] && Nodes[j] == ns[j + 1] && ns[i + 1] != cur;
          assert ns[i + 1].next == old(ns[i + 1].next);
        }
      }
    }

    /** The stored count of real nodes. */
    method Size() returns (n: int)
      requires Valid()
      ensures n == |Contents|
    {
      n := size;
    }
  }
}
