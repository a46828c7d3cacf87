/** Bid admission (POST /api/bids) and the bid history of an auction
    (GET /api/auctions/bids/:id). */
module BidController {
  import opened Common
  import opened Sequences
  import opened BidModel
  import opened AuctionModel
  import opened Store

  const ClosedMessage := "Auction is already closed"
  const OwnAuctionMessage := "You cannot bid on your own auction"
  const NotFoundMessage := "Auction not found"
  const CreateErrorMessage := "Error creating bid"
  /** The message of the validation error the auction's save raises. */
  const AuctionValidationMessage := "Auction validation failed: endDate: End date must be in the future"

  /** The request validators: a MongoId auction id and a non-negative amount. */
  function RequestErrors(auctionId: string, amount: Money): (errors: seq<string>)
    ensures errors == [] <==> IsMongoId(auctionId) && amount >= 0
  {
    (if IsMongoId(auctionId) then [] else ["Invalid auction ID"]) +
    (if amount >= 0 then [] else ["Bid amount must be positive"])
  }

  /** createBid on a database state: the response and the state it leaves.
      The checks run in this order and the first that fails answers. On
      success the bid is saved first and the auction, with the bid pushed
      onto its list, second; the auction's save validates the whole document,
      so on an active auction whose end date has passed it fails after the
      bid is already stored. */
  function CreateBidSpec(s: State, caller: Id, auctionId: string, amount: Money, bidId: Id, now: Time)
    : (Response<Bid>, State)
  {
    var errors := RequestErrors(auctionId, amount);
    if errors != [] then (Invalid(errors), s)
    else match LookupAuction(s.auctions, auctionId)
      case CastFailure => (ServerError(CreateErrorMessage), s)
      case Missing => (NotFound(NotFoundMessage), s)
      case Found(i) =>
        var a := s.auctions[i];
        var current := CurrentBid(s.bids, a);
        if a.status != Active then (BadRequest(ClosedMessage), s)
        else if a.seller == caller then (Forbidden(OwnAuctionMessage), s)
        else if !MeetsMinimumIncrement(amount, current) then (BelowMinimum(current), s)
        else if !Unused(s, bidId) then (ServerError(CreateErrorMessage), s)
        else
          var bid := NewBid(bidId, auctionId, caller, amount, now);
          var pushed := a.(bids := a.bids + [bidId]);
          var withBid := s.(bids := s.bids + [bid]);
          if SchemaValid(pushed, now) then (Created(bid), withBid.(auctions := s.auctions[i := pushed]))
          else (BadRequest(AuctionValidationMessage), withBid)
  }

  /** createBid: validation, the ordered checks, then the bid's save and the
      auction's save. */
  method CreateBid(db: Database, caller: Id, auctionId: string, amount: Money, bidId: Id, now: Time)
    returns (r: Response<Bid>)
    modifies db
    ensures (r, db.Contents()) == CreateBidSpec(old(db.Contents()), caller, auctionId, amount, bidId, now)
  {
    var errors := RequestErrors(auctionId, amount);
    if errors != [] {
      return Invalid(errors);
    }
    var found := LookupAuction(db.auctions, auctionId);
    if found.CastFailure? {
      return ServerError(CreateErrorMessage);
    }
    if found.Missing? {
      return NotFound(NotFoundMessage);
    }
    var auction := new AuctionDoc.Hydrate(db.auctions[found.index]);
    if auction.status != Active {
      return BadRequest(ClosedMessage);
    }
    if auction.seller == caller {
      return Forbidden(OwnAuctionMessage);
    }
    var currentBid := CurrentBid(db.bids, auction.Record());
    if !MeetsMinimumIncrement(amount, currentBid) {
      return BelowMinimum(currentBid);
    }
    var bid := NewBid(bidId, auctionId, caller, amount, now);
    auction.bids := auction.bids + [bid.id];
    var inserted := db.InsertBid(bid);
    if !inserted {
      return ServerError(CreateErrorMessage);
    }
    ReplaceAtFound(db.auctions, auctionId, auction.Record());
    var saved := auction.Save(db, now);
    if !saved {
      return BadRequest(AuctionValidationMessage);
    }
    return Created(bid);
  }

  /** The auction a well-formed request names, when it exists. */
  predicate Targets(s: State, auctionId: string) {
    LookupAuction(s.auctions, auctionId).Found?
  }

  function Target(s: State, auctionId: string): Auction
    requires Targets(s, auctionId)
  {
    s.auctions[LookupAuction(s.auctions, auctionId).index]
  }

  /** A bid is admitted exactly when every check passes and both saves succeed. */
  lemma AdmittedIff(s: State, caller: Id, auctionId: string, amount: Money, bidId: Id, now: Time)
    ensures CreateBidSpec(s, caller, auctionId, amount, bidId, now).0.Created? <==>
      && IsMongoId(auctionId) && amount >= 0
      && Targets(s, auctionId)
      && Target(s, auctionId).status == Active
      && Target(s, auctionId).seller != caller
      && MeetsMinimumIncrement(amount, CurrentBid(s.bids, Target(s, auctionId)))
      && Unused(s, bidId)
      && SchemaValid(Target(s, auctionId), now)
  {
    if Targets(s, auctionId) {
      var a := Target(s, auctionId);
      assert SchemaValid(a.(bids := a.bids + [bidId]), now) == SchemaValid(a, now);
    }
  }

  /** The first failing check decides the answer, whatever the later checks
      would have said. */
  lemma ChecksRunInOrder(s: State, caller: Id, auctionId: string, amount: Money, bidId: Id, now: Time)
    ensures var r := CreateBidSpec(s, caller, auctionId, amount, bidId, now).0;
      && (!IsMongoId(auctionId) || amount < 0 ==> r.Invalid?)
      && (IsMongoId(auctionId) && amount >= 0 ==>
            && (!IsObjectIdString(auctionId) ==> r.ServerError?)
            && (LookupAuction(s.auctions, auctionId).Missing? ==> r == NotFound(NotFoundMessage))
            && (Targets(s, auctionId) ==>
                  var a := Target(s, auctionId);
                  && (a.status == Closed ==> r == BadRequest(ClosedMessage))
                  && (a.status == Active && a.seller == caller ==> r == Forbidden(OwnAuctionMessage))
                  && (a.status == Active && a.seller != caller &&
                      !MeetsMinimumIncrement(amount, CurrentBid(s.bids, a)) ==>
                        r == BelowMinimum(CurrentBid(s.bids, a)))))
  {
  }

  /** A request turned down by any check leaves the whole database unchanged;
      only the auction's failed save leaves something behind: the bid. */
  lemma RejectionsChangeNothing(s: State, caller: Id, auctionId: string, amount: Money, bidId: Id, now: Time)
    ensures var (r, s') := CreateBidSpec(s, caller, auctionId, amount, bidId, now);
      && (!r.Created? ==> s'.auctions == s.auctions && s'.categories == s.categories)
      && (!r.Created? && r != BadRequest(AuctionValidationMessage) ==> s' == s)
      && (r == BadRequest(AuctionValidationMessage) ==>
            s'.bids == s.bids + [NewBid(bidId, auctionId, caller, amount, now)])
  {
    if RequestErrors(auctionId, amount) == [] && LookupAuction(s.auctions, auctionId).Found? {
      var a := s.auctions[LookupAuction(s.auctions, auctionId).index];
      if a.status != Active {
        assert |ClosedMessage| != |AuctionValidationMessage|;
      }
    }
  }

  /** On success exactly one bid, the caller's with the given amount and the
      current time, is appended to the collection and to the end of the
      auction's list; nothing else changes, in that auction or elsewhere. */
  lemma SuccessAppendsOneBid(s: State, caller: Id, auctionId: string, amount: Money, bidId: Id, now: Time)
    requires CreateBidSpec(s, caller, auctionId, amount, bidId, now).0.Created?
    ensures var (r, s') := CreateBidSpec(s, caller, auctionId, amount, bidId, now);
      var i := LookupAuction(s.auctions, auctionId).index;
      && r.body == Bid(bidId, auctionId, caller, amount, now)
      && s'.bids == s.bids + [r.body]
      && s'.categories == s.categories
      && |s'.auctions| == |s.auctions|
      && (forall k :: 0 <= k < |s.auctions| && k != i ==> s'.auctions[k] == s.auctions[k])
      && s'.auctions[i].bids == s.auctions[i].bids + [bidId]
      && s'.auctions[i].(bids := s.auctions[i].bids) == s.auctions[i]
  {
  }

  /** An admitted bid is at least every earlier bid on the auction, and
      strictly above the current bid whenever that is positive. */
  lemma AdmittedBidTopsLedger(s: State, caller: Id, auctionId: string, amount: Money, bidId: Id, now: Time)
    requires CreateBidSpec(s, caller, auctionId, amount, bidId, now).0.Created?
    ensures var a := Target(s, auctionId);
      && amount >= CurrentBid(s.bids, a)
      && (CurrentBid(s.bids, a) > 0 ==> amount > CurrentBid(s.bids, a))
      && (forall b :: b in s.bids && b.auction == auctionId ==> amount >= b.amount)
  {
    var a := Target(s, auctionId);
    var c := CurrentBid(s.bids, a);
    assert amount >= 0 && 10 * amount >= 11 * c;
    forall b | b in s.bids && b.auction == auctionId
      ensures amount >= b.amount
    {
      assert b.amount <= c;
    }
  }

  /** The controller's rule implies the amount rule the schema declares when
      the current bid is positive. */
  lemma AdmissionImpliesDeclaredRule(s: State, caller: Id, auctionId: string, amount: Money, bidId: Id, now: Time)
    requires CreateBidSpec(s, caller, auctionId, amount, bidId, now).0.Created?
    requires CurrentBid(s.bids, Target(s, auctionId)) > 0
    ensures DeclaredAmountRule(amount, CurrentBid(s.bids, Target(s, auctionId)))
  {
    AdmittedBidTopsLedger(s, caller, auctionId, amount, bidId, now);
  }

  const SampleAuctionId := "aaaaaaaaaaaaaaaaaaaaaaaa"
  const SampleBidId := "bbbbbbbbbbbbbbbbbbbbbbbb"

  /** An active auction of the sample id, with no bids yet. */
  function SampleAuction(startingPrice: Money, endDate: Time): Auction {
    NewAuction(SampleAuctionId, "Lamp", "", startingPrice, endDate, "seller", "category")
  }

  lemma SampleIdIsValid()
    ensures IsMongoId(SampleAuctionId) && IsObjectIdString(SampleAuctionId)
  {
    CastableIdsPassValidation(SampleAuctionId);
  }

  /** With a starting price of 0 a bid of 0 is admitted, though it breaks the
      declared rule that a bid must exceed the current bid. */
  lemma ZeroBidBreaksDeclaredRule()
    ensures var s := State([SampleAuction(0, 100)], [], []);
      var (r, _) := CreateBidSpec(s, "buyer", SampleAuctionId, 0, SampleBidId, 50);
      && r.Created?
      && CurrentBid(s.bids, s.auctions[0]) == 0
      && !DeclaredAmountRule(0, CurrentBid(s.bids, s.auctions[0]))
  {
    SampleIdIsValid();
    var s := State([SampleAuction(0, 100)], [], []);
    assert LookupAuction(s.auctions, SampleAuctionId) == Found(0);
  }

  /** The bid history: exactly the auction's bids, newest first. A string that
      is not an ObjectId makes the query fail. */
  function GetBidsForAuctionId(s: State, auctionId: string): (r: Response<seq<Bid>>)
    ensures r.ServerError? <==> !IsObjectIdString(auctionId)
    ensures r.Ok? ==> multiset(r.body) == multiset(Ledger(s.bids, auctionId))
    ensures r.Ok? ==> forall b :: b in r.body <==> b in s.bids && b.auction == auctionId
    ensures r.Ok? ==> forall i, j :: 0 <= i < j < |r.body| ==> r.body[i].timestamp >= r.body[j].timestamp
  {
    if !IsObjectIdString(auctionId) then ServerError("Error fetching bids")
    else
      var newestFirst := SortBy(Ledger(s.bids, auctionId), (b: Bid) => -b.timestamp);
      SameElements(newestFirst, Ledger(s.bids, auctionId));
      Ok(newestFirst)
  }
}
