/** Creating, listing, reading and editing auctions
    (POST /api/auctions, GET /api/auctions, GET and PUT /api/auctions/:id). */
module AuctionController {
  import opened Common
  import opened Sequences
  import opened BidModel
  import opened AuctionModel
  import opened Store

  /** A date field of a request body: absent or empty, present but not a
      date, or a date. */
  datatype DateInput = Absent | Unparseable | At(time: Time)

  const NotFoundMessage := "Auction not found"
  const NotOwnerMessage := "You are not authorized to edit this auction"
  const LockedMessage := "Editing is not allowed after receiving bids"
  const PastDateMessage := "End date must be in the future"

  // ---------------------------------------------------------------- create

  /** The category the request names exists (and its id can be cast). */
  predicate CategoryExists(s: State, category: string) {
    IsObjectIdString(category) && exists k :: 0 <= k < |s.categories| && s.categories[k].id == category
  }

  /** The message of the CastError that `Category.findById` rejects with when
      the value is not an ObjectId; the category check reports it as is. */
  function CategoryCastMessage(category: string): string {
    "Cast to ObjectId failed for value \"" + category + "\" (type string) at path \"_id\" for model \"Category\""
  }

  /** The request validators, one message per failing rule, in field order. */
  function CreateErrors(s: State, title: string, startingPrice: Money, endDate: DateInput,
                        category: string, now: Time): seq<string>
  {
    (if title == "" then ["Title is required"] else []) +
    (if startingPrice >= 0 then [] else ["Starting price must be a positive number"]) +
    (match endDate
     case At(t) => if t <= now then [PastDateMessage] else []
     case _ => ["Invalid date format"]) +
    (if category == "" then ["Category is required"] else []) +
    (if !IsObjectIdString(category) then [CategoryCastMessage(category)]
     else if CategoryExists(s, category) then [] else ["Category not found"])
  }

  /** The rules a creation request must meet. */
  predicate CreateRequestValid(s: State, title: string, startingPrice: Money, endDate: DateInput,
                               category: string, now: Time) {
    title != "" && startingPrice >= 0 && endDate.At? && endDate.time > now && CategoryExists(s, category)
  }

  /** createAuction on a database state: validation, then a new document with
      the caller as seller and the schema defaults, inserted at the end. */
  function CreateAuctionSpec(s: State, caller: Id, title: string, description: string,
                             startingPrice: Money, endDate: DateInput, category: string,
                             newId: Id, now: Time): (Response<Auction>, State)
  {
    var errors := CreateErrors(s, title, startingPrice, endDate, category, now);
    if errors != [] then (Invalid(errors), s)
    else
      var auction := NewAuction(newId, title, description, startingPrice, endDate.time, caller, category);
      if Unused(s, newId) then (Created(auction), s.(auctions := s.auctions + [auction]))
      else (ServerError("Error creating auction"), s)
  }

  method CreateAuction(db: Database, caller: Id, title: string, description: string,
                       startingPrice: Money, endDate: DateInput, category: string,
                       newId: Id, now: Time) returns (r: Response<Auction>)
    modifies db
    ensures (r, db.Contents()) == CreateAuctionSpec(old(db.Contents()), caller, title, description,
                                                     startingPrice, endDate, category, newId, now)
  {
    var errors := CreateErrors(db.Contents(), title, startingPrice, endDate, category, now);
    if errors != [] {
      return Invalid(errors);
    }
    var auction := NewAuction(newId, title, description, startingPrice, endDate.time, caller, category);
    var inserted := db.InsertAuction(auction);
    if !inserted {
      return ServerError("Error creating auction");
    }
    return Created(auction);
  }

  lemma CreateErrorsIff(s: State, title: string, startingPrice: Money, endDate: DateInput,
                        category: string, now: Time)
    ensures CreateErrors(s, title, startingPrice, endDate, category, now) == [] <==>
            CreateRequestValid(s, title, startingPrice, endDate, category, now)
    ensures var errors := CreateErrors(s, title, startingPrice, endDate, category, now);
      && (title == "" ==> "Title is required" in errors)
      && (startingPrice < 0 ==> "Starting price must be a positive number" in errors)
      && (endDate.At? && endDate.time <= now ==> PastDateMessage in errors)
      && (!endDate.At? ==> "Invalid date format" in errors)
      && (!IsObjectIdString(category) ==> CategoryCastMessage(category) in errors)
      && (IsObjectIdString(category) && !CategoryExists(s, category) ==> "Category not found" in errors)
  {
  }

  /** A request that breaks any rule is answered 400 and stores nothing; one
      that meets them all stores one new auction, of the caller, active, with
      no bids, no winner and a current bid of 0. */
  lemma CreateAuctionOutcome(s: State, caller: Id, title: string, description: string,
                             startingPrice: Money, endDate: DateInput, category: string,
                             newId: Id, now: Time)
    ensures var (r, s') := CreateAuctionSpec(s, caller, title, description, startingPrice, endDate, category, newId, now);
      && (!CreateRequestValid(s, title, startingPrice, endDate, category, now) ==> r.Invalid? && s' == s)
      && (r.Created? <==> CreateRequestValid(s, title, startingPrice, endDate, category, now) && Unused(s, newId))
      && (r.Created? ==>
            && s' == s.(auctions := s.auctions + [r.body])
            && r.body.id == newId && r.body.seller == caller && r.body.category == category
            && r.body.title == title && r.body.description == description
            && r.body.startingPrice == startingPrice && r.body.endDate == endDate.time
            && r.body.status == Active && r.body.bids == [] && r.body.winner == None && r.body.currentBid == 0
            && SchemaValid(r.body, now))
      && (!r.Created? ==> s' == s)
  {
    CreateErrorsIff(s, title, startingPrice, endDate, category, now);
  }

  // ---------------------------------------------------------------- list

  /** A page of the listing, and the size of the whole collection. */
  datatype Listing = Listing(page: int, limit: int, total: nat, auctions: seq<Auction>)

  /** `parseInt(param) || fallback`: a missing, non-numeric or zero parameter
      falls back (None stands for NaN). */
  function ParamOr(param: Option<int>, fallback: int): (v: int)
    ensures param.Some? && param.value != 0 ==> v == param.value
    ensures param.None? || param.value == 0 ==> v == fallback
    ensures v != 0 || fallback == 0
  {
    if param.None? || param.value == 0 then fallback else param.value
  }

  /** The sort key of the listing: end date, ascending. */
  function EndDateKey(a: Auction): int { a.endDate }

  /** How many documents `.skip((page - 1) * limit)` passes over. */
  function Skip(page: int, limit: int): int { (page - 1) * limit }

  /** How many documents `.limit(limit)` returns at most: a negative limit
      counts as its magnitude. */
  function Magnitude(limit: int): nat { if limit < 0 then -limit else limit }

  /** getAuctions: all auctions sorted by end date, ascending, then the page
      `page` of `limit` of them. A negative skip makes the query fail. */
  function GetAuctions(s: State, pageParam: Option<int>, limitParam: Option<int>): Response<Listing>
  {
    var page := ParamOr(pageParam, 1);
    var limit := ParamOr(limitParam, 10);
    var skip := Skip(page, limit);
    if skip < 0 then ServerError("Error fetching auctions")
    else
      var byEndDate := SortBy(s.auctions, EndDateKey);
      Ok(Listing(page, limit, |s.auctions|, Window(byEndDate, skip, Magnitude(limit))))
  }

  /** Missing, zero or non-numeric parameters fall back to page 1 and limit
      10; with both defaults the listing holds the first ten auctions by end
      date, or all of them when there are fewer. */
  lemma GetAuctionsDefaults(s: State, pageParam: Option<int>, limitParam: Option<int>)
    ensures var r := GetAuctions(s, pageParam, limitParam);
      && (pageParam.None? || pageParam == Some(0) ==> r.Ok? && r.body.page == 1)
      && (limitParam.None? || limitParam == Some(0) ==> r.Ok? ==> r.body.limit == 10)
      && (pageParam.None? && limitParam.None? ==>
            r.Ok? && r.body.auctions ==
              SortBy(s.auctions, EndDateKey)[..if |s.auctions| < 10 then |s.auctions| else 10])
  {
  }

  /** A listing is the total count and a window of at most |limit| auctions,
      starting at (page - 1) * limit, into the whole collection sorted by end
      date, ascending; the query fails exactly when that skip is negative. */
  lemma GetAuctionsWindow(s: State, pageParam: Option<int>, limitParam: Option<int>)
    ensures var r := GetAuctions(s, pageParam, limitParam);
      var page := ParamOr(pageParam, 1);
      var limit := ParamOr(limitParam, 10);
      && (r.Ok? <==> Skip(page, limit) >= 0)
      && (r.Ok? ==>
            var sorted := SortBy(s.auctions, EndDateKey);
            && r.body.page == page && r.body.limit == limit
            && r.body.total == |s.auctions|
            && |r.body.auctions| <= Magnitude(limit)
            && (forall k :: 0 <= k < |r.body.auctions| ==>
                  Skip(page, limit) + k < |sorted| && r.body.auctions[k] == sorted[Skip(page, limit) + k]))
  {
  }

  /** The auctions of a listing come in ascending order of end date. */
  lemma GetAuctionsSorted(s: State, pageParam: Option<int>, limitParam: Option<int>)
    ensures var r := GetAuctions(s, pageParam, limitParam);
      r.Ok? ==> forall i, j :: 0 <= i < j < |r.body.auctions| ==>
                  r.body.auctions[i].endDate <= r.body.auctions[j].endDate
  {
    var page := ParamOr(pageParam, 1);
    var limit := ParamOr(limitParam, 10);
    if Skip(page, limit) >= 0 {
      var sorted := SortBy(s.auctions, EndDateKey);
      WindowSorted(sorted, EndDateKey, Skip(page, limit), Magnitude(limit));
      EndDatesAscending(Window(sorted, Skip(page, limit), Magnitude(limit)));
    }
  }

  lemma EndDatesAscending(w: seq<Auction>)
    requires SortedBy(w, EndDateKey)
    ensures forall i, j :: 0 <= i < j < |w| ==> w[i].endDate <= w[j].endDate
  {
    forall i, j | 0 <= i < j < |w| ensures w[i].endDate <= w[j].endDate {
      assert EndDateKey(w[i]) <= EndDateKey(w[j]);
    }
  }

  // ---------------------------------------------------------------- read

  /** The lazy close of a read: an active auction whose end date has come. */
  predicate Expired(a: Auction, now: Time) {
    a.status == Active && a.endDate <= now
  }

  /** getAuctionById on a database state. */
  function GetAuctionByIdSpec(s: State, id: string, now: Time): (Response<Auction>, State)
  {
    match LookupAuction(s.auctions, id)
    case CastFailure => (ServerError("Error fetching auction"), s)
    case Missing => (NotFound(NotFoundMessage), s)
    case Found(i) =>
      var a := s.auctions[i];
      if Expired(a, now) then
        var closed := Close(a, s.bids, now);
        (Ok(closed), s.(auctions := s.auctions[i := closed]))
      else (Ok(a), s)
  }

  method GetAuctionById(db: Database, id: string, now: Time) returns (r: Response<Auction>)
    modifies db
    ensures (r, db.Contents()) == GetAuctionByIdSpec(old(db.Contents()), id, now)
  {
    var found := LookupAuction(db.auctions, id);
    if found.CastFailure? {
      return ServerError("Error fetching auction");
    }
    if found.Missing? {
      return NotFound(NotFoundMessage);
    }
    var auction := new AuctionDoc.Hydrate(db.auctions[found.index]);
    if auction.status == Active && auction.endDate <= now {
      ReplaceAtFound(db.auctions, id, Close(auction.Record(), db.bids, now));
      auction.CloseAuction(db, now);
    }
    return Ok(auction.Record());
  }

  /** Reading an unknown id is a 404; reading an expired active auction closes
      it and returns the closed auction; any other read changes nothing and
      returns the stored auction. */
  lemma GetAuctionByIdOutcome(s: State, id: string, now: Time)
    ensures var (r, s') := GetAuctionByIdSpec(s, id, now);
      && (r.NotFound? <==> IsObjectIdString(id) && forall k :: 0 <= k < |s.auctions| ==> s.auctions[k].id != id)
      && (!r.Ok? ==> s' == s)
      && (r.Ok? ==> exists k :: 0 <= k < |s.auctions| && s.auctions[k].id == id &&
                     r.body.id == id &&
                     (Expired(s.auctions[k], now) ==>
                        r.body.status == Closed && r.body.endDate == now && s' == s.(auctions := s.auctions[k := r.body])) &&
                     (!Expired(s.auctions[k], now) ==> r.body == s.auctions[k] && s' == s))
  {
    var (r, s') := GetAuctionByIdSpec(s, id, now);
    match LookupAuction(s.auctions, id)
    case CastFailure =>
    case Missing =>
    case Found(i) =>
      CloseOutcome(s.auctions[i], s.bids, now);
      assert s.auctions[i].id == id;
  }

  // ---------------------------------------------------------------- update

  /** The auction with the request's edits applied: an empty title or
      description, or an absent end date, keeps the old value. */
  function Edited(a: Auction, title: string, description: string, endDate: DateInput): Auction {
    a.(title := if title != "" then title else a.title,
       description := if description != "" then description else a.description,
       endDate := if endDate.At? then endDate.time else a.endDate)
  }

  /** updateAuction on a database state. Assigning an unparseable end date
      fails the document's cast on set: the cast error is recorded on the path
      and the old end date stays, so the future-date check compares the old
      date, and a document that passes it fails its save with that cast error,
      which is answered 500. */
  function UpdateAuctionSpec(s: State, caller: Id, id: string, title: string, description: string,
                             endDate: DateInput, now: Time): (Response<Auction>, State)
  {
    match LookupAuction(s.auctions, id)
    case CastFailure => (ServerError("Error updating auction"), s)
    case Missing => (NotFound(NotFoundMessage), s)
    case Found(i) =>
      var a := s.auctions[i];
      var edited := Edited(a, title, description, endDate);
      if a.seller != caller then (Forbidden(NotOwnerMessage), s)
      else if |a.bids| > 0 then (BadRequest(LockedMessage), s)
      else if edited.endDate <= now then (BadRequest(PastDateMessage), s)
      else if endDate.Unparseable? then (ServerError("Error updating auction"), s)
      else if !SchemaValid(edited, now) then (ServerError("Error updating auction"), s)
      else (Ok(edited), s.(auctions := s.auctions[i := edited]))
  }

  method UpdateAuction(db: Database, caller: Id, id: string, title: string, description: string,
                       endDate: DateInput, now: Time) returns (r: Response<Auction>)
    modifies db
    ensures (r, db.Contents()) == UpdateAuctionSpec(old(db.Contents()), caller, id, title, description, endDate, now)
  {
    var found := LookupAuction(db.auctions, id);
    if found.CastFailure? {
      return ServerError("Error updating auction");
    }
    if found.Missing? {
      return NotFound(NotFoundMessage);
    }
    var auction := new AuctionDoc.Hydrate(db.auctions[found.index]);
    if auction.seller != caller {
      return Forbidden(NotOwnerMessage);
    }
    if |auction.bids| > 0 {
      return BadRequest(LockedMessage);
    }
    auction.title := if title != "" then title else auction.title;
    auction.description := if description != "" then description else auction.description;
    auction.endDate := if endDate.At? then endDate.time else auction.endDate;
    if auction.endDate <= now {
      return BadRequest(PastDateMessage);
    }
    if endDate.Unparseable? {
      return ServerError("Error updating auction");
    }
    ReplaceAtFound(db.auctions, id, auction.Record());
    var saved := auction.Save(db, now);
    if !saved {
      return ServerError("Error updating auction");
    }
    return Ok(auction.Record());
  }

  /** The checks of an edit, in order: 404, 403 for anyone but the seller, 400
      once a bid is listed, 400 for an end date not in the future (the old one
      when the new one is absent or unparseable), then 500 for an unparseable
      one. Every rejection leaves the database as it was. */
  lemma UpdateChecksInOrder(s: State, caller: Id, id: string, title: string, description: string,
                            endDate: DateInput, now: Time)
    ensures var (r, s') := UpdateAuctionSpec(s, caller, id, title, description, endDate, now);
      && (!r.Ok? ==> s' == s)
      && (LookupAuction(s.auctions, id).Missing? ==> r == NotFound(NotFoundMessage))
      && (LookupAuction(s.auctions, id).Found? ==>
            var a := s.auctions[LookupAuction(s.auctions, id).index];
            && (a.seller != caller ==> r == Forbidden(NotOwnerMessage))
            && (a.seller == caller && |a.bids| > 0 ==> r == BadRequest(LockedMessage))
            && (a.seller == caller && |a.bids| == 0 && endDate.At? && endDate.time <= now ==>
                  r == BadRequest(PastDateMessage))
            && (a.seller == caller && |a.bids| == 0 && !endDate.At? && a.endDate <= now ==>
                  r == BadRequest(PastDateMessage))
            && (a.seller == caller && |a.bids| == 0 && endDate.Unparseable? && a.endDate > now ==>
                  r == ServerError("Error updating auction")))
  {
  }

  /** A successful edit is made by the seller of an auction with no bids,
      leaves the end date in the future, keeps old values for empty fields,
      and touches nothing but title, description and end date. */
  lemma UpdateSuccess(s: State, caller: Id, id: string, title: string, description: string,
                      endDate: DateInput, now: Time)
    requires UpdateAuctionSpec(s, caller, id, title, description, endDate, now).0.Ok?
    ensures var (r, s') := UpdateAuctionSpec(s, caller, id, title, description, endDate, now);
      var i := LookupAuction(s.auctions, id).index;
      var a := s.auctions[i];
      && a.seller == caller && a.bids == []
      && r.body.endDate > now
      && r.body.title == (if title == "" then a.title else title)
      && r.body.description == (if description == "" then a.description else description)
      && r.body.endDate == (if endDate.Absent? then a.endDate else endDate.time)
      && r.body.(title := a.title, description := a.description, endDate := a.endDate) == a
      && s' == s.(auctions := s.auctions[i := r.body])
  {
  }
}
