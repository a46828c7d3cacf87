/** The handlers written directly in the auction routes: deleting an auction
    (DELETE /api/auctions/:id), a seller's auctions (GET
    /api/auctions/user/:id), and the id masking used in their log lines. */
module AuctionRoutes {
  import opened Common
  import opened Sequences
  import opened AuctionModel
  import opened Store

  const NotFoundMessage := "Auction not found"
  const NotOwnerMessage := "You are not authorized to delete this auction"
  const DeletedMessage := "Auction deleted successfully"
  const DeleteErrorMessage := "Error deleting auction"
  const NoAuctionsMessage := "No auctions found for this user"

  // ---------------------------------------------------------------- delete

  /** DELETE /:id on a database state: only the seller may delete, whatever
      the auction's status or bids; the auction's bid records stay. */
  function DeleteAuctionSpec(s: State, caller: Id, id: string): (Response<string>, State)
  {
    match LookupAuction(s.auctions, id)
    case CastFailure => (ServerError(DeleteErrorMessage), s)
    case Missing => (NotFound(NotFoundMessage), s)
    case Found(i) =>
      if s.auctions[i].seller != caller then (Forbidden(NotOwnerMessage), s)
      else (Ok(DeletedMessage), s.(auctions := s.auctions[..i] + s.auctions[i + 1..]))
  }

  method DeleteAuction(db: Database, caller: Id, id: string) returns (r: Response<string>)
    modifies db
    ensures (r, db.Contents()) == DeleteAuctionSpec(old(db.Contents()), caller, id)
  {
    var found := LookupAuction(db.auctions, id);
    if found.CastFailure? {
      return ServerError(DeleteErrorMessage);
    }
    if found.Missing? {
      return NotFound(NotFoundMessage);
    }
    var auction := new AuctionDoc.Hydrate(db.auctions[found.index]);
    if auction.seller != caller {
      return Forbidden(NotOwnerMessage);
    }
    db.DeleteAuctionAt(found.index);
    return Ok(DeletedMessage);
  }

  /** An unknown id is a 404 and anyone but the seller gets a 403; neither
      changes the database. */
  lemma DeleteRejections(s: State, caller: Id, id: string)
    ensures var (r, s') := DeleteAuctionSpec(s, caller, id);
      && (!r.Ok? ==> s' == s)
      && (r == NotFound(NotFoundMessage) <==>
            IsObjectIdString(id) && forall k :: 0 <= k < |s.auctions| ==> s.auctions[k].id != id)
      && (r == Forbidden(NotOwnerMessage) <==>
            IsObjectIdString(id) &&
            (exists k :: 0 <= k < |s.auctions| && s.auctions[k].id == id &&
                         (forall j :: 0 <= j < k ==> s.auctions[j].id != id) &&
                         s.auctions[k].seller != caller))
      && (r.Ok? ==> exists k :: 0 <= k < |s.auctions| && s.auctions[k].id == id && s.auctions[k].seller == caller)
  {
    match LookupAuction(s.auctions, id)
    case CastFailure =>
    case Missing =>
    case Found(i) =>
      assert FindAuction(s.auctions, id) == Some(i);
  }

  /** The seller's delete removes exactly that auction, even an active one
      with bids, and nothing else: the other auctions, every bid and every
      category stay; afterwards the id is unknown. */
  lemma DeleteRemovesExactlyThat(s: State, caller: Id, id: string)
    requires DistinctIds(s.auctions)
    requires DeleteAuctionSpec(s, caller, id).0.Ok?
    ensures var s' := DeleteAuctionSpec(s, caller, id).1;
      && |s'.auctions| == |s.auctions| - 1
      && (forall a :: a in s'.auctions <==> a in s.auctions && a.id != id)
      && DistinctIds(s'.auctions)
      && s'.bids == s.bids && s'.categories == s.categories
      && LookupAuction(s'.auctions, id).Missing?
  {
    var i := LookupAuction(s.auctions, id).index;
    RemovalKeepsDistinct(s.auctions, i);
    RemovalContents(s.auctions, i);
    var rest := s.auctions[..i] + s.auctions[i + 1..];
    assert forall k :: 0 <= k < |rest| ==> rest[k] in rest;
  }

  // ---------------------------------------------------------------- by seller

  /** The auctions of one seller, in storage order. */
  function BySeller(auctions: seq<Auction>, seller: Id): (r: seq<Auction>)
    ensures |r| <= |auctions|
    ensures forall a :: a in r <==> a in auctions && a.seller == seller
  {
    if |auctions| == 0 then []
    else
      var last := auctions[|auctions| - 1];
      var prefix := auctions[..|auctions| - 1];
      assert auctions == prefix + [last];
      BySeller(prefix, seller) + (if last.seller == seller then [last] else [])
  }

  /** The sort key of the seller's listing: end date, descending. */
  function LatestEndFirst(a: Auction): int { -a.endDate }

  /** The answer of GET /user/:id on success: a message object when the
      seller has no auctions, the list otherwise. */
  datatype SellerListing = NoAuctions(message: string) | Auctions(auctions: seq<Auction>)

  /** GET /user/:id: the auctions whose seller is the id, latest end date
      first, or a message when there are none. A string that is not an
      ObjectId makes the query fail. */
  function GetUserAuctions(s: State, id: string): (r: Response<SellerListing>)
    ensures r.ServerError? <==> !IsObjectIdString(id)
    ensures r == Ok(NoAuctions(NoAuctionsMessage)) <==>
              IsObjectIdString(id) && forall a :: a in s.auctions ==> a.seller != id
    ensures r.Ok? && r.body.Auctions? ==>
              && r.body.auctions != []
              && multiset(r.body.auctions) == multiset(BySeller(s.auctions, id))
              && (forall a :: a in r.body.auctions <==> a in s.auctions && a.seller == id)
              && (forall i, j :: 0 <= i < j < |r.body.auctions| ==>
                    r.body.auctions[i].endDate >= r.body.auctions[j].endDate)
  {
    if !IsObjectIdString(id) then ServerError("Server error")
    else
      var mine := BySeller(s.auctions, id);
      if |mine| == 0 then Ok(NoAuctions(NoAuctionsMessage))
      else
        var sorted := SortBy(mine, LatestEndFirst);
        SameElements(sorted, mine);
        assert sorted[0] in sorted;
        Ok(Auctions(sorted))
  }

  // ---------------------------------------------------------------- maskId

  /** String.prototype.substring: both indices are clamped to [0, |s|] and
      swapped when the start is after the end. */
  function JsSubstring(s: string, start: int, end: int): (r: string)
    ensures var lo := Clamp(if start <= end then start else end, |s|);
            var hi := Clamp(if start <= end then end else start, |s|);
            r == s[lo..hi]
  {
    var a := Clamp(start, |s|);
    var b := Clamp(end, |s|);
    if a <= b then s[a..b] else s[b..a]
  }

  function Clamp(i: int, n: nat): (c: nat)
    ensures c <= n
    ensures 0 <= i <= n ==> c == i
  {
    if i < 0 then 0 else if i > n then n else i
  }

  /** maskId: the first four and the last four characters around "...", for a
      value that is a non-empty string (None stands for any other value). */
  function MaskId(id: Option<string>): (r: string)
    ensures id.None? || id == Some("") ==> r == "[INVALID_ID]"
    ensures id.Some? && |id.value| >= 4 ==>
              && r == id.value[..4] + "..." + id.value[|id.value| - 4..]
              && |r| == 11
    ensures id.Some? && 0 < |id.value| < 4 ==> r == id.value + "..." + id.value
  {
    if id.None? || id.value == "" then "[INVALID_ID]"
    else
      var s := id.value;
      JsSubstring(s, 0, 4) + "..." + JsSubstring(s, |s| - 4, |s|)
  }

  /** Masking never reveals more than the eight characters at the ends. */
  lemma MaskIdHidesTheMiddle(s: string)
    requires |s| >= 8
    ensures var r := MaskId(Some(s));
      && |r| == 11
      && r[4..7] == "..."
      && (forall k :: 0 <= k < 4 ==> r[k] == s[k])
      && (forall k :: 7 <= k < 11 ==> r[k] == s[|s| - 11 + k])
  {
  }
}
