/**
 * The list's fields over an explicit heap of cells, with `Append` and `Remove`
 * exactly as the C++ code writes them. It exists to exhibit two defects of the
 * written `Remove`: the scan reads the successor's identifier before asking
 * whether a successor exists, and the tail is never moved back. The corrected
 * behaviour is `LinkedList.BidList.Remove`.
 */
module SourceDefects {
  import opened Bids
  import opened ListSpec

  datatype Ptr = Null | At(addr: nat)

  /** A heap cell: a `Node` with its bid and its `next` link. */
  datatype Cell = Cell(bid: Bid, next: Ptr)

  /** The fields `head`, `tail` and `size` over a heap; `free` is the next unused address. */
  datatype RawList = RawList(heap: map<nat, Cell>, head: nat, tail: nat, size: int, free: nat)

  /** How the written removal scan ends: it dereferences a null `next`, it stops
      at the node whose successor matches, or it leaves the model: it meets an
      address outside the heap or exceeds its fuel, which only a dangling or cyclic
      chain does. Lists built by `RawNew` and `AppendAsWritten` have neither. */
  datatype Scan = NullDereference | StopAt(cur: nat) | OffChain

  /** How the written removal ends; `Undefined` stands for a scan that ended `OffChain`. */
  datatype RemoveOutcome = Crashed | Completed(list: RawList) | Undefined

  /** The constructor: a single dummy cell that is both head and tail. */
  function RawNew(): (r: RawList)
    ensures r.head == r.tail && r.size == 0 && RawContents(r) == []
  {
    RawList(map[0 := Cell(DummyBid, Null)], 0, 0, 0, 1)
  }

  /** The bids met by following `next` from `p`, for at most `fuel` cells. */
  function Chain(heap: map<nat, Cell>, p: Ptr, fuel: nat): seq<Bid>
    decreases fuel
  {
    if fuel == 0 || p.Null? || p.addr !in heap then []
    else [heap[p.addr].bid] + Chain(heap, heap[p.addr].next, fuel - 1)
  }

  /** What a traversal from the dummy's successor visits. Every cell has an address
      below `free`, so `free` steps reach the end of any acyclic chain. */
  function RawContents(l: RawList): seq<Bid> {
    if l.head in l.heap then Chain(l.heap, l.heap[l.head].next, l.free) else []
  }

  /** `Append` as written: the new cell is hung off whatever `tail` points at. */
  function AppendAsWritten(l: RawList, b: Bid): (r: RawList)
    requires l.tail in l.heap && l.free !in l.heap
    ensures r.head == l.head && r.size == l.size + 1
    ensures r.tail in r.heap && r.heap[r.tail] == Cell(b, Null) && r.tail !in l.heap
    ensures l.tail in r.heap && r.heap[l.tail].next == At(r.tail)
  {
    var n := l.free;
    RawList(l.heap[l.tail := l.heap[l.tail].(next := At(n))][n := Cell(b, Null)], l.head, n, l.size + 1, n + 1)
  }

  /** The loop `while (bidId != curNode->next->bid.bidId && curNode != nullptr)`:
      the identifier of `next` is read first, so a null `next` is dereferenced. */
  function ScanAsWritten(heap: map<nat, Cell>, cur: nat, id: string, fuel: nat): (r: Scan)
    ensures r.StopAt? ==> r.cur in heap && heap[r.cur].next.At? && heap[r.cur].next.addr in heap &&
                          heap[heap[r.cur].next.addr].bid.bidId == id
    decreases fuel
  {
    if fuel == 0 || cur !in heap then OffChain
    else match heap[cur].next
      case Null => NullDereference
      case At(n) =>
        if n !in heap then OffChain
        else if heap[n].bid.bidId == id then StopAt(cur)
        else ScanAsWritten(heap, n, id, fuel - 1)
  }

  /** `Remove` as written: the dummy guard, the unguarded scan, then the unlink,
      which never touches `tail`. */
  function RemoveAsWritten(l: RawList, id: string): (r: RemoveOutcome)
    ensures id == DummyId ==> r == Completed(l)
    ensures r.Completed? ==> r.list.head == l.head && r.list.tail == l.tail && r.list.free == l.free
    ensures r.Completed? && id != DummyId ==> r.list.size == l.size - 1
  {
    if id == DummyId then Completed(l)
    else
      match ScanAsWritten(l.heap, l.head, id, l.free)
      case NullDereference => Crashed
      case OffChain => Undefined
      case StopAt(c) =>
        var victim := l.heap[c].next.addr;
        Completed(l.(heap := l.heap[c := l.heap[c].(next := l.heap[victim].next)], size := l.size - 1))
  }

  /** The cell at address `i` of a well-formed list holding `bids`: address 0 is the
      dummy, address `i + 1` holds `bids[i]` and links to the next address. */
  function CellAt(bids: seq<Bid>, i: nat): Cell
    requires i <= |bids|
  {
    Cell(if i == 0 then DummyBid else bids[i - 1], if i < |bids| then At(i + 1) else Null)
  }

  /** The list holding `bids` laid out at consecutive addresses, as `RawNew` and
      repeated `AppendAsWritten` build it. */
  function LaidOut(bids: seq<Bid>): RawList {
    RawList(map i: nat | i <= |bids| :: CellAt(bids, i), 0, |bids|, |bids|, |bids| + 1)
  }

  /** Addresses `0 .. |bids|` of `heap` hold the laid-out cells for `bids`. */
  ghost predicate HoldsLaidOut(heap: map<nat, Cell>, bids: seq<Bid>) {
    forall i: nat :: i <= |bids| ==> i in heap && heap[i] == CellAt(bids, i)
  }

  /** A laid-out list holds its cells. */
  lemma LaidOutHoldsCells(bids: seq<Bid>)
    ensures HoldsLaidOut(LaidOut(bids).heap, bids)
  {
  }

  /** A traversal of a laid-out heap, from the successor of address `c`, visits
      the bids after position `c`. */
  lemma {:induction false} ChainLaidOut(heap: map<nat, Cell>, bids: seq<Bid>, c: nat, fuel: nat)
    requires HoldsLaidOut(heap, bids)
    requires c <= |bids| && fuel >= |bids| - c
    ensures c in heap && Chain(heap, heap[c].next, fuel) == bids[c..]
    decreases |bids| - c
  {
    assert heap[c] == CellAt(bids, c);
    if c < |bids| {
      assert heap[c + 1] == CellAt(bids, c + 1);
      ChainLaidOut(heap, bids, c + 1, fuel - 1);
      assert bids[c..] == [bids[c]] + bids[c + 1..];
    }
  }

  /** A laid-out list is a list holding `bids`: its traversal visits them in order. */
  lemma LaidOutHolds(bids: seq<Bid>)
    ensures RawContents(LaidOut(bids)) == bids
  {
    LaidOutHoldsCells(bids);
    ChainLaidOut(LaidOut(bids).heap, bids, 0, |bids| + 1);
  }

  /** On a laid-out heap, the written scan from address `c` stops before the first
      match after `c`, and dereferences null when there is none. */
  lemma {:induction false} ScanLaidOut(heap: map<nat, Cell>, bids: seq<Bid>, id: string, c: nat, fuel: nat)
    requires HoldsLaidOut(heap, bids)
    requires c <= |bids| && fuel > |bids| - c
    ensures ScanAsWritten(heap, c, id, fuel) ==
            match FirstMatch(bids[c..], id)
            case None => NullDereference
            case Some(k) => StopAt(c + k)
    decreases |bids| - c
  {
    assert heap[c] == CellAt(bids, c);
    if c == |bids| {
      assert bids[c..] == [];
    } else {
      assert heap[c + 1] == CellAt(bids, c + 1);
      var rest := bids[c..];
      assert rest[0] == bids[c] && rest[1..] == bids[c + 1..];
      if bids[c].bidId == id {
        assert FirstMatch(rest, id) == Some(0);
      } else {
        ScanLaidOut(heap, bids, id, c + 1, fuel - 1);
      }
    }
  }

  /** For every bid sequence laid out at consecutive addresses, removing an absent
      identifier other than the dummy's ends in a null dereference: the
      `curNode != nullptr` test never stops the loop. */
  lemma RemoveAbsentAlwaysCrashes(bids: seq<Bid>, id: string)
    requires id != DummyId && !HasId(bids, id)
    ensures RemoveAsWritten(LaidOut(bids), id) == Crashed
  {
    LaidOutHoldsCells(bids);
    ScanLaidOut(LaidOut(bids).heap, bids, id, 0, |bids| + 1);
    assert bids[0..] == bids;
  }

  /** For every bid sequence laid out at consecutive addresses, removing a present
      identifier unlinks a cell, but `tail` stays where it was. */
  lemma RemovePresentKeepsTail(bids: seq<Bid>, id: string)
    requires id != DummyId && HasId(bids, id)
    ensures var o := RemoveAsWritten(LaidOut(bids), id);
            o.Completed? && o.list.tail == |bids| && o.list.size == |bids| - 1
  {
    LaidOutHoldsCells(bids);
    ScanLaidOut(LaidOut(bids).heap, bids, id, 0, |bids| + 1);
    assert bids[0..] == bids;
  }

  /** On an empty list, removing any identifier other than the dummy's dereferences
      the dummy's null successor. */
  lemma RemoveFromEmptyCrashes(id: string)
    requires id != DummyId
    ensures RemoveAsWritten(RawNew(), id) == Crashed
  {
  }

  /** Removing an absent identifier from a one-bid list runs the scan off the tail. */
  lemma RemoveAbsentCrashes()
    ensures var l := AppendAsWritten(RawNew(), Bid("1", "A", "", 0.0));
            RawContents(l) == [Bid("1", "A", "", 0.0)] && RemoveAsWritten(l, "2") == Crashed
  {
  }

  /** Removing the last bid leaves `tail` on the detached cell, so the next append
      is not reachable from the dummy: the list stays empty after appending. */
  lemma RemoveTailLosesNextAppend()
    ensures var l1 := AppendAsWritten(RawNew(), Bid("1", "A", "", 0.0));
            var o := RemoveAsWritten(l1, "1");
            o.Completed? && o.list.tail == 1 && RawContents(o.list) == [] &&
            o.list.tail in o.list.heap &&
            RawContents(AppendAsWritten(o.list, Bid("2", "B", "", 0.0))) == []
  {
  }
}
