/** Bidding sessions on one auction, worked through the handlers' models. */
module Scenarios {
  import opened Common
  import opened BidModel
  import opened AuctionModel
  import opened Store
  import opened BidController
  import opened AuctionController

  /** The states of a session on an auction at a starting price of 100
      ending at time 3700, all requests made at time 100. */
  function Start(): State { State([SampleAuction(100, 3700)], [], []) }
  function FirstBid(): Bid { Bid("bid2", SampleAuctionId, "buyer", 110, 100) }
  function SecondBid(): Bid { Bid("bid4", SampleAuctionId, "other", 121, 100) }
  function AfterFirst(): State {
    State([SampleAuction(100, 3700).(bids := ["bid2"])], [FirstBid()], [])
  }
  function AfterSecond(): State {
    State([SampleAuction(100, 3700).(bids := ["bid2", "bid4"])], [FirstBid(), SecondBid()], [])
  }

  /** 100 is refused: the minimum at a starting price of 100 is 110. */
  lemma SessionStep1()
    ensures CreateBidSpec(Start(), "buyer", SampleAuctionId, 100, "bid1", 100) == (BelowMinimum(100), Start())
  {
    SampleIdIsValid();
    assert LookupAuction(Start().auctions, SampleAuctionId) == Found(0);
  }

  /** 110 is admitted. */
  lemma SessionStep2()
    ensures CreateBidSpec(Start(), "buyer", SampleAuctionId, 110, "bid2", 100) == (Created(FirstBid()), AfterFirst())
  {
    SampleIdIsValid();
    var s := Start();
    assert RequestErrors(SampleAuctionId, 110) == [];
    assert LookupAuction(s.auctions, SampleAuctionId) == Found(0);
    assert s.auctions[0].seller != "buyer";
    assert CurrentBid(s.bids, s.auctions[0]) == 100;
    assert "bid2" != SampleAuctionId;
    assert Unused(s, "bid2");
    var pushed := s.auctions[0].(bids := s.auctions[0].bids + ["bid2"]);
    assert pushed == SampleAuction(100, 3700).(bids := ["bid2"]);
    assert SchemaValid(pushed, 100);
    assert s.auctions[0 := pushed] == [pushed];
    assert NewBid("bid2", SampleAuctionId, "buyer", 110, 100) == FirstBid();
    var r := CreateBidSpec(s, "buyer", SampleAuctionId, 110, "bid2", 100);
    assert r.0 == Created(FirstBid());
    assert r.1.bids == [FirstBid()];
    assert r.1.auctions == AfterFirst().auctions;
    assert r.1.categories == [];
  }

  /** 115 is refused: the current bid is 110, so the minimum is 121. */
  lemma SessionStep3()
    ensures CreateBidSpec(AfterFirst(), "other", SampleAuctionId, 115, "bid3", 100) == (BelowMinimum(110), AfterFirst())
  {
    SampleIdIsValid();
    var s := AfterFirst();
    assert LookupAuction(s.auctions, SampleAuctionId) == Found(0);
    assert Ledger(s.bids, SampleAuctionId) == s.bids;
  }

  /** 121 is admitted and becomes the current bid. */
  lemma SessionStep4()
    ensures CreateBidSpec(AfterFirst(), "other", SampleAuctionId, 121, "bid4", 100) == (Created(SecondBid()), AfterSecond())
    ensures CurrentBid(AfterSecond().bids, AfterSecond().auctions[0]) == 121
  {
    SecondBidPasses();
    SecondBidStored();
    SecondBidIsCurrent();
  }

  /** Every check before the saves passes for the second bid. */
  lemma SecondBidPasses()
    ensures RequestErrors(SampleAuctionId, 121) == []
    ensures LookupAuction(AfterFirst().auctions, SampleAuctionId) == Found(0)
    ensures CurrentBid(AfterFirst().bids, AfterFirst().auctions[0]) == 110
    ensures Unused(AfterFirst(), "bid4")
  {
    SampleIdIsValid();
    FirstBidIsCurrent();
    SecondIdFresh();
  }

  /** After the first bid, getCurrentBid() reads 110. */
  lemma FirstBidIsCurrent()
    ensures CurrentBid(AfterFirst().bids, AfterFirst().auctions[0]) == 110
  {
    var s := AfterFirst();
    assert Ledger(s.bids, SampleAuctionId) == s.bids;
  }

  /** "bid4" is used by no document after the first bid. */
  lemma SecondIdFresh()
    ensures Unused(AfterFirst(), "bid4")
  {
    assert "bid4" != SampleAuctionId && "bid4" != "bid2";
  }

  /** Both saves of the second bid succeed and store it. */
  lemma SecondBidStored()
    requires RequestErrors(SampleAuctionId, 121) == []
    requires LookupAuction(AfterFirst().auctions, SampleAuctionId) == Found(0)
    requires CurrentBid(AfterFirst().bids, AfterFirst().auctions[0]) == 110
    requires Unused(AfterFirst(), "bid4")
    ensures CreateBidSpec(AfterFirst(), "other", SampleAuctionId, 121, "bid4", 100) == (Created(SecondBid()), AfterSecond())
  {
    var s := AfterFirst();
    assert s.auctions[0].seller != "other";
    var pushed := s.auctions[0].(bids := s.auctions[0].bids + ["bid4"]);
    assert pushed == SampleAuction(100, 3700).(bids := ["bid2", "bid4"]);
    assert SchemaValid(pushed, 100);
    assert NewBid("bid4", SampleAuctionId, "other", 121, 100) == SecondBid();
    var r := CreateBidSpec(s, "other", SampleAuctionId, 121, "bid4", 100);
    assert r.0 == Created(SecondBid());
    assert r.1.bids == [FirstBid(), SecondBid()];
    assert r.1.auctions == AfterSecond().auctions;
  }

  /** After the second bid, getCurrentBid() reads 121. */
  lemma SecondBidIsCurrent()
    ensures CurrentBid(AfterSecond().bids, AfterSecond().auctions[0]) == 121
  {
    var s' := AfterSecond();
    assert Ledger(s'.bids, SampleAuctionId) == s'.bids;
    assert MaxAmount(s'.bids) == 121 by {
      assert s'.bids[..1] == [FirstBid()];
    }
  }

  /** The whole session: 100 refused, 110 admitted, 115 refused against a
      current bid of 110, 121 admitted. */
  lemma TenPercentSession()
    ensures var (r1, s1) := CreateBidSpec(Start(), "buyer", SampleAuctionId, 100, "bid1", 100);
      var (r2, s2) := CreateBidSpec(s1, "buyer", SampleAuctionId, 110, "bid2", 100);
      var (r3, s3) := CreateBidSpec(s2, "other", SampleAuctionId, 115, "bid3", 100);
      var (r4, s4) := CreateBidSpec(s3, "other", SampleAuctionId, 121, "bid4", 100);
      && r1 == BelowMinimum(100) && r2.Created? && r3 == BelowMinimum(110) && r4.Created?
      && CurrentBid(s4.bids, s4.auctions[0]) == 121 && s4.auctions[0].bids == ["bid2", "bid4"]
  {
    SessionStep1();
    SessionStep2();
    SessionStep3();
    SessionStep4();
  }

  /** A bid on an auction still marked active after its end date is refused
      with the auction's validation error, yet the bid is stored; the next
      read of the auction closes it with that bidder as the winner. */
  lemma LateBidWinsOnRead()
    ensures var s0 := State([SampleAuction(100, 50)], [], []);
      var (r1, s1) := CreateBidSpec(s0, "buyer", SampleAuctionId, 110, "bid1", 60);
      var (r2, s2) := GetAuctionByIdSpec(s1, SampleAuctionId, 70);
      && r1 == BadRequest(AuctionValidationMessage) && |s1.bids| == 1 && s1.auctions == s0.auctions
      && r2.Ok? && r2.body.status == Closed && r2.body.winner == Some("buyer") && r2.body.currentBid == 110
      && s2.auctions == [r2.body]
  {
    SampleIdIsValid();
    var s0 := State([SampleAuction(100, 50)], [], []);
    assert LookupAuction(s0.auctions, SampleAuctionId) == Found(0);
    var s1 := CreateBidSpec(s0, "buyer", SampleAuctionId, 110, "bid1", 60).1;
    assert Ledger(s1.bids, SampleAuctionId) == s1.bids;
    assert WinningBid(s1.bids, SampleAuctionId) == Some(s1.bids[0]);
  }

  /** A seller's own bid is refused whatever its amount. */
  lemma SellerCannotBid(amount: Money, bidId: Id)
    requires amount >= 0
    ensures CreateBidSpec(State([SampleAuction(100, 3700)], [], []), "seller", SampleAuctionId, amount, bidId, 100).0
      == Forbidden(OwnAuctionMessage)
  {
    SampleIdIsValid();
    assert LookupAuction([SampleAuction(100, 3700)], SampleAuctionId) == Found(0);
  }
}
