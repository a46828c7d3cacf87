/** The Bid record: which auction, which bidder, how much, and when. */
module BidModel {
  import opened Common

  /** A stored bid. The schema fixes exactly these fields (besides the id);
      `auction`, `user` and `amount` are required, so every record has them. */
  datatype Bid = Bid(id: Id, auction: Id, user: Id, amount: Money, timestamp: Time)

  /** A bid built by the controller: the timestamp takes its default, the
      creation time. */
  function NewBid(id: Id, auction: Id, user: Id, amount: Money, now: Time): (b: Bid)
    ensures b.timestamp == now
    ensures b.id == id && b.auction == auction && b.user == user && b.amount == amount
  {
    Bid(id, auction, user, amount, now)
  }

  /** The amount rule the schema declares: a bid must exceed the current bid.
      It is declared under the option name `validator`, which the schema does
      not act on, so nothing enforces it. */
  predicate DeclaredAmountRule(amount: Money, currentBid: Money) {
    amount > currentBid
  }

  /** The controller's admission rule: at least 1.10 times the current bid,
      compared exactly (10 * amount >= 11 * current). */
  predicate MeetsMinimumIncrement(amount: Money, currentBid: Money) {
    10 * amount >= 11 * currentBid
  }
}
