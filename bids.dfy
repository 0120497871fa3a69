/** The bid record stored in the list and the identifiers the list reserves. */
module Bids {

  /** One bid. The list never inspects `amount`; the C++ `double` is kept as a `real`. */
  datatype Bid = Bid(bidId: string, title: string, fund: string, amount: real)

  /** The identifier carried by the permanent dummy node. */
  const DummyId: string := "__dummy__"

  /** The `Bid(string ID)` constructor: only the identifier is set, the text fields stay empty. */
  function BidWithId(id: string): (b: Bid)
    ensures b.bidId == id && b.title == "" && b.fund == ""
  {
    Bid(id, "", "", 0.0)
  }

  /** What `Search` returns when nothing matches: a bid with the empty identifier. */
  const NotFound: Bid := BidWithId("")

  /** The bid held by the dummy node. */
  const DummyBid: Bid := BidWithId(DummyId)
}
