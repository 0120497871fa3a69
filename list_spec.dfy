/**
 * The abstract meaning of the list: the sequence of bids after the dummy node,
 * and what searching it and removing from it do to that sequence.
 */
module ListSpec {
  import opened Bids

  datatype Option<T> = None | Some(value: T)

  /** Some bid of `s` carries identifier `id`. */
  predicate HasId(s: seq<Bid>, id: string) {
    exists j :: 0 <= j < |s| && s[j].bidId == id
  }

  /** No two bids of `s` share an identifier. */
  predicate UniqueIds(s: seq<Bid>) {
    forall i, j :: 0 <= i < j < |s| ==> s[i].bidId != s[j].bidId
  }

  /** The position of the first bid of `s`, in list order, whose identifier is `id`. */
  function FirstMatch(s: seq<Bid>, id: string): (r: Option<nat>)
    ensures r.Some? <==> HasId(s, id)
    ensures r.Some? ==> r.value < |s| && s[r.value].bidId == id
    ensures r.Some? ==> forall j :: 0 <= j < r.value ==> s[j].bidId != id
  {
    if s == [] then None
    else if s[0].bidId == id then Some(0)
    else
      match FirstMatch(s[1..], id)
      case None =>
        assert forall j :: 1 <= j < |s| ==> s[j] == s[1..][j - 1];
        None
      case Some(k) => Some(k + 1)
  }

  /** The bid a search for `id` yields: the first match, or `NotFound` when there is none. */
  function SearchResult(s: seq<Bid>, id: string): (r: Bid)
    ensures HasId(s, id) ==>
              r.bidId == id &&
              exists k :: 0 <= k < |s| && s[k] == r && forall j :: 0 <= j < k ==> s[j].bidId != id
    ensures !HasId(s, id) ==> r == NotFound
  {
    match FirstMatch(s, id)
    case Some(k) => s[k]
    case None => NotFound
  }

  /** `s` with its first bid whose identifier is `id` taken out; `s` itself when there is none. */
  function RemoveFirst(s: seq<Bid>, id: string): (r: seq<Bid>)
    ensures HasId(s, id) ==>
              |r| == |s| - 1 &&
              exists k :: 0 <= k < |s| && s[k].bidId == id && r == s[..k] + s[k + 1..] &&
                          forall j :: 0 <= j < k ==> s[j].bidId != id
    ensures !HasId(s, id) ==> r == s
  {
    match FirstMatch(s, id)
    case Some(k) => s[..k] + s[k + 1..]
    case None => s
  }

  /** A search after appending `b` finds what it found before, else `b` if it matches. */
  lemma SearchAfterAppend(s: seq<Bid>, b: Bid, id: string)
    ensures SearchResult(s + [b], id) ==
            if HasId(s, id) then SearchResult(s, id) else if b.bidId == id then b else NotFound
  {
    var t := s + [b];
    assert forall j :: 0 <= j < |s| ==> t[j] == s[j];
    assert t[|s|] == b;
    if HasId(s, id) {
      assert HasId(t, id);
    } else if b.bidId == id {
      assert HasId(t, id);
    } else {
      assert !HasId(t, id);
    }
  }

  /** A search after prepending `b` yields `b` if it matches, else what it yielded before. */
  lemma SearchAfterPrepend(s: seq<Bid>, b: Bid, id: string)
    ensures SearchResult([b] + s, id) == if b.bidId == id then b else SearchResult(s, id)
  {
  }

  /** The empty-identifier test that callers apply to a search result is a faithful
      "absent" test for every non-empty identifier. */
  lemma NotFoundIffAbsent(s: seq<Bid>, id: string)
    requires id != ""
    ensures SearchResult(s, id).bidId == "" <==> !HasId(s, id)
  {
  }

  /** Removing the identifier of a bid just appended (whose identifier was absent) undoes the append. */
  lemma RemoveUndoesAppend(s: seq<Bid>, b: Bid)
    requires !HasId(s, b.bidId)
    ensures RemoveFirst(s + [b], b.bidId) == s
  {
    var t := s + [b];
    assert forall j :: 0 <= j < |s| ==> t[j] == s[j];
    assert t[|s|] == b;
    assert FirstMatch(t, b.bidId) == Some(|s|);
    assert t[..|s|] == s;
  }

  /** Removing the identifier of a bid just prepended undoes the prepend. */
  lemma RemoveUndoesPrepend(s: seq<Bid>, b: Bid)
    ensures RemoveFirst([b] + s, b.bidId) == s
  {
  }

  /** Removal keeps identifiers unique. */
  lemma RemoveKeepsUnique(s: seq<Bid>, id: string)
    requires UniqueIds(s)
    ensures UniqueIds(RemoveFirst(s, id))
  {
  }

  /** With unique identifiers, a removed identifier is gone: a later search finds nothing. */
  lemma SearchAfterRemove(s: seq<Bid>, id: string)
    requires UniqueIds(s)
    ensures !HasId(RemoveFirst(s, id), id)
    ensures SearchResult(RemoveFirst(s, id), id) == NotFound
  {
  }

  /** With unique identifiers, removing the same identifier twice is the same as removing it once. */
  lemma RemoveIdempotent(s: seq<Bid>, id: string)
    requires UniqueIds(s)
    ensures RemoveFirst(RemoveFirst(s, id), id) == RemoveFirst(s, id)
  {
  }

  /** Appending a bid whose identifier is absent keeps identifiers unique. */
  lemma AppendKeepsUnique(s: seq<Bid>, b: Bid)
    requires UniqueIds(s) && !HasId(s, b.bidId)
    ensures UniqueIds(s + [b])
  {
  }
}
