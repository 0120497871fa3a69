/** What the menu loop does with the list, and use cases that exercise the contracts. */
module Client {
  import opened Bids
  import opened ListSpec
  import opened LinkedList

  /** Menu choice 1: append a bid only when a search for its identifier reports
      absence, that is, returns a bid with the empty identifier. */
  method EnterBid(list: BidList, b: Bid) returns (added: bool)
    requires list.Valid()
    modifies list.Repr
    ensures list.Valid() && fresh(list.Repr - old(list.Repr))
    ensures added <==> SearchResult(old(list.Contents), b.bidId).bidId == ""
    ensures list.Contents == if added then old(list.Contents) + [b] else old(list.Contents)
    ensures b.bidId != "" ==> (added <==> !HasId(old(list.Contents), b.bidId))
    ensures UniqueIds(old(list.Contents)) && b.bidId != "" ==> UniqueIds(list.Contents)
  {
    var existing := list.Search(b.bidId);
    if existing.bidId == "" {
      list.Append(b);
      added := true;
    } else {
      added := false;
    }
    if b.bidId != "" {
      NotFoundIffAbsent(old(list.Contents), b.bidId);
      if added {
        if UniqueIds(old(list.Contents)) {
          AppendKeepsUnique(old(list.Contents), b);
        }
      }
    }
  }

  /** The loading loop: appends the already parsed bids one by one, in order,
      without any duplicate check. */
  method LoadBids(list: BidList, bids: seq<Bid>)
    requires list.Valid()
    modifies list.Repr
    ensures list.Valid() && fresh(list.Repr - old(list.Repr))
    ensures list.Contents == old(list.Contents) + bids
  {
    var i := 0;
    while i < |bids|
      invariant 0 <= i <= |bids|
      invariant list.Valid() && fresh(list.Repr - old(list.Repr))
      invariant list.Contents == old(list.Contents) + bids[..i]
    {
      list.Append(bids[i]);
      assert bids[..i + 1] == bids[..i] + [bids[i]];
      i := i + 1;
    }
    assert bids[..i] == bids;
  }

  /** Loading `bids` into a new list: the size is their number and a traversal
      yields them in the order they were appended. */
  method LoadThenTraverse(bids: seq<Bid>) returns (n: int, visited: seq<Bid>)
    ensures n == |bids| && visited == bids
  {
    var list := new BidList();
    LoadBids(list, bids);
    n := list.Size();
    visited := list.Traverse();
  }

  /** Two appends, then a search for the second identifier finds the second bid. */
  method AppendThenSearch(a: Bid, b: Bid) returns (found: Bid, n: int)
    requires a.bidId != b.bidId
    ensures found == b && n == 2
  {
    var list := new BidList();
    list.Append(a);
    list.Append(b);
    assert list.Contents == [a] + [b];
    SearchAfterAppend([a], b, b.bidId);
    assert !HasId([a], b.bidId) by {
      assert [a][0] == a;
    }
    found := list.Search(b.bidId);
    n := list.Size();
  }

  /** Two appends, then removing the first bid's identifier leaves only the second
      bid, even when both carry that identifier: removal takes the first match. */
  method RemoveFirstOfTwo(a: Bid, b: Bid) returns (removed: bool, n: int, visited: seq<Bid>)
    requires a.bidId != DummyId
    ensures removed && n == 1 && visited == [b]
  {
    var list := new BidList();
    list.Append(a);
    list.Append(b);
    assert list.Contents == [a] + [b];
    RemoveUndoesPrepend([b], a);
    removed := list.Remove(a.bidId);
    n := list.Size();
    visited := list.Traverse();
  }

  /** Removing the same identifier twice: the second removal reports absence and
      changes nothing. */
  method RemoveTwice(a: Bid) returns (first: bool, again: bool, n: int)
    requires a.bidId != DummyId
    ensures first && !again && n == 0
  {
    var list := new BidList();
    list.Append(a);
    RemoveUndoesAppend([], a);
    assert [] + [a] == [a];
    first := list.Remove(a.bidId);
    again := list.Remove(a.bidId);
    n := list.Size();
  }

  /** Prepending `a` then `b` gives the order `b, a`. */
  method PrependOrder(a: Bid, b: Bid) returns (visited: seq<Bid>)
    ensures visited == [b, a]
  {
    var list := new BidList();
    list.Prepend(a);
    list.Prepend(b);
    visited := list.Traverse();
  }

  /** With the guarded scan, removing from an empty list reports absence and changes nothing. */
  method RemoveFromEmpty(id: string) returns (removed: bool, n: int)
    ensures !removed && n == 0
  {
    var list := new BidList();
    removed := list.Remove(id);
    n := list.Size();
  }

  /** With the tail moved back, a bid appended after removing the only bid is in the list. */
  method RemoveTailThenAppend(a: Bid, b: Bid) returns (visited: seq<Bid>)
    requires a.bidId != DummyId
    ensures visited == [b]
  {
    var list := new BidList();
    list.Append(a);
    RemoveUndoesAppend([], a);
    assert [] + [a] == [a];
    var removed := list.Remove(a.bidId);
    list.Append(b);
    visited := list.Traverse();
  }
}
