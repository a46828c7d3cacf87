/** The Auction record with its schema defaults and validator, the ledger
    queries over the bid collection (current bid, winning bid), and the value
    the closing transition leaves behind. */
module AuctionModel {
  import opened Common
  import opened BidModel

  datatype Status = Active | Closed

  /** A stored auction. `bids` lists the ids of the bids pushed onto it, in
      order; `winner` and `currentBid` are only written when it closes. */
  datatype Auction = Auction(
    id: Id,
    title: string,
    description: string,
    startingPrice: Money,
    endDate: Time,
    seller: Id,
    category: Id,
    bids: seq<Id>,
    status: Status,
    winner: Option<Id>,
    currentBid: Money)

  /** A new auction document: the fields the creator supplies, and the schema
      defaults for the rest. */
  function NewAuction(id: Id, title: string, description: string, startingPrice: Money,
                      endDate: Time, seller: Id, category: Id): (a: Auction)
    ensures a.status == Active && a.winner == None && a.currentBid == 0 && a.bids == []
    ensures a.id == id && a.title == title && a.description == description
    ensures a.startingPrice == startingPrice && a.endDate == endDate
    ensures a.seller == seller && a.category == category
  {
    Auction(id, title, description, startingPrice, endDate, seller, category, [], Active, None, 0)
  }

  /** The endDate validator: any date once closed, otherwise strictly after now. */
  predicate EndDateValid(status: Status, endDate: Time, now: Time) {
    status == Closed || endDate > now
  }

  /** What a full validation of the document checks: the required title, the
      minimum of the starting price, and the endDate validator. */
  predicate SchemaValid(a: Auction, now: Time) {
    a.title != "" && a.startingPrice >= 0 && EndDateValid(a.status, a.endDate, now)
  }

  lemma EndDateValidatorCases(status: Status, endDate: Time, now: Time)
    ensures status == Closed ==> EndDateValid(status, endDate, now)
    ensures status == Active ==> (EndDateValid(status, endDate, now) <==> endDate > now)
  {
  }

  // ---------------------------------------------------------------- ledger

  /** The bids of the collection that belong to one auction, in insertion order. */
  function Ledger(bids: seq<Bid>, auction: Id): (l: seq<Bid>)
    ensures |l| <= |bids|
    ensures forall b :: b in l <==> b in bids && b.auction == auction
  {
    if |bids| == 0 then []
    else
      var last := bids[|bids| - 1];
      var prefix := bids[..|bids| - 1];
      assert bids == prefix + [last];
      Ledger(prefix, auction) + (if last.auction == auction then [last] else [])
  }

  lemma LedgerAppend(bids: seq<Bid>, b: Bid, auction: Id)
    ensures Ledger(bids + [b], auction)
         == Ledger(bids, auction) + (if b.auction == auction then [b] else [])
  {
    assert (bids + [b])[..|bids|] == bids;
  }

  /** The largest amount in a non-empty list of bids. */
  function MaxAmount(l: seq<Bid>): (m: Money)
    requires |l| > 0
    ensures exists b :: b in l && b.amount == m
    ensures forall b :: b in l ==> b.amount <= m
  {
    if |l| == 1 then l[0].amount
    else
      var prefix := l[..|l| - 1];
      var last := l[|l| - 1];
      assert l == prefix + [last];
      var m := MaxAmount(prefix);
      if last.amount > m then last.amount else m
  }

  /** getCurrentBid over a ledger: its highest amount, or the starting price
      when it is empty. */
  function CurrentOf(ledger: seq<Bid>, startingPrice: Money): Money {
    if |ledger| == 0 then startingPrice else MaxAmount(ledger)
  }

  /** getCurrentBid: the highest amount among the auction's bids in the
      collection, or its starting price when there are none. */
  function CurrentBid(bids: seq<Bid>, a: Auction): (c: Money)
    ensures Ledger(bids, a.id) == [] ==> c == a.startingPrice
    ensures Ledger(bids, a.id) != [] ==>
              (exists b :: b in bids && b.auction == a.id && b.amount == c) &&
              (forall b :: b in bids && b.auction == a.id ==> b.amount <= c)
  {
    var l := Ledger(bids, a.id);
    if |l| > 0 then
      var m := MaxAmount(l);
      assert forall b :: b in bids && b.auction == a.id ==> b in l;
      m
    else a.startingPrice
  }

  /** b wins against c: a larger amount, or the same amount placed strictly earlier. */
  predicate Beats(b: Bid, c: Bid) {
    b.amount > c.amount || (b.amount == c.amount && b.timestamp < c.timestamp)
  }

  /** The bid the aggregation's first result is: largest amount first, then
      earliest timestamp; bids equal in both keep their insertion order. */
  function Best(l: seq<Bid>): (w: Option<Bid>)
    ensures w.None? <==> |l| == 0
    ensures w.Some? ==> w.value in l
    ensures w.Some? ==> forall b :: b in l ==> b.amount <= w.value.amount
    ensures w.Some? ==> forall b :: b in l && b.amount == w.value.amount ==> w.value.timestamp <= b.timestamp
  {
    if |l| == 0 then None
    else
      var prefix := l[..|l| - 1];
      var last := l[|l| - 1];
      assert l == prefix + [last];
      var p := Best(prefix);
      if p.None? || Beats(last, p.value) then Some(last) else p
  }

  /** getWinningBid: the auction's bid of largest amount, earliest among equals;
      None when the auction has no bids. */
  function WinningBid(bids: seq<Bid>, auction: Id): (w: Option<Bid>)
    ensures w.None? <==> Ledger(bids, auction) == []
    ensures w.Some? ==> w.value in bids && w.value.auction == auction
  {
    Best(Ledger(bids, auction))
  }

  /** The winning bid carries the current (highest) amount. */
  lemma WinningAmountIsCurrent(bids: seq<Bid>, a: Auction)
    requires WinningBid(bids, a.id).Some?
    ensures WinningBid(bids, a.id).value.amount == CurrentBid(bids, a)
  {
    var l := Ledger(bids, a.id);
    var w := Best(l).value;
    var c := CurrentBid(bids, a);
    assert w in l;
    var b :| b in bids && b.auction == a.id && b.amount == c;
    assert b in l;
  }

  // ---------------------------------------------------------------- closing

  /** The bid that would make a winner: the winning bid, when it strictly
      exceeds the starting price. */
  predicate HasQualifyingBid(bids: seq<Bid>, a: Auction) {
    Ledger(bids, a.id) != [] && CurrentBid(bids, a) > a.startingPrice
  }

  /** The auction after closeAuction: unchanged when it is already closed;
      otherwise closed with endDate stamped to the closing time, and the
      winning bid's bidder and amount recorded if that amount exceeds the
      starting price. */
  function Close(a: Auction, bids: seq<Bid>, now: Time): (c: Auction)
  {
    if a.status == Closed then a
    else
      var w := WinningBid(bids, a.id);
      var decided := if w.Some? && w.value.amount > a.startingPrice
                     then a.(winner := Some(w.value.user), currentBid := w.value.amount)
                     else a;
      decided.(status := Closed, endDate := now)
  }

  /** What closing promises, stated against the current bid rather than the
      winning-bid computation. */
  lemma CloseOutcome(a: Auction, bids: seq<Bid>, now: Time)
    ensures Close(a, bids, now).status == Closed
    ensures a.status == Closed ==> Close(a, bids, now) == a
    ensures a.status == Active ==>
      var c := Close(a, bids, now);
      && c.endDate == now
      && c.(winner := a.winner, currentBid := a.currentBid, status := a.status, endDate := a.endDate) == a
      && (HasQualifyingBid(bids, a) ==>
            c.currentBid == CurrentBid(bids, a) &&
            c.winner == Some(WinningBid(bids, a.id).value.user))
      && (!HasQualifyingBid(bids, a) ==> c.winner == a.winner && c.currentBid == a.currentBid)
  {
    if a.status == Active && WinningBid(bids, a.id).Some? {
      WinningAmountIsCurrent(bids, a);
    }
  }

  /** Closing twice is closing once, whatever the clock says the second time. */
  lemma CloseIdempotent(a: Auction, bids: seq<Bid>, now: Time, later: Time)
    ensures Close(Close(a, bids, now), bids, later) == Close(a, bids, now)
  {
  }

  /** When a winner is recorded, it is the author of a bid of the auction with
      exactly the recorded amount, and that amount is the highest. */
  lemma WinnerIsHighestBidder(a: Auction, bids: seq<Bid>, now: Time)
    requires a.status == Active && a.winner == None
    requires Close(a, bids, now).winner.Some?
    ensures var c := Close(a, bids, now);
      && c.currentBid > a.startingPrice
      && (exists b :: b in bids && b.auction == a.id && b.user == c.winner.value && b.amount == c.currentBid)
      && (forall b :: b in bids && b.auction == a.id ==> b.amount <= c.currentBid)
  {
    var w := WinningBid(bids, a.id);
    WinningAmountIsCurrent(bids, a);
    assert w.value in bids && w.value.auction == a.id;
  }

  // ---------------------------------------------------------------- admission

  /** A ledger in which every bid met the 10% rule against the current bid at
      the moment it was admitted. */
  predicate Admitted(ledger: seq<Bid>, startingPrice: Money)
    decreases |ledger|
  {
    |ledger| == 0 ||
    (var prefix := ledger[..|ledger| - 1];
     Admitted(prefix, startingPrice) &&
     MeetsMinimumIncrement(ledger[|ledger| - 1].amount, CurrentOf(prefix, startingPrice)))
  }

  lemma AdmittedPrefix(ledger: seq<Bid>, startingPrice: Money, n: nat)
    requires Admitted(ledger, startingPrice) && n <= |ledger|
    ensures Admitted(ledger[..n], startingPrice)
    decreases |ledger|
  {
    if n < |ledger| {
      var prefix := ledger[..|ledger| - 1];
      assert prefix[..n] == ledger[..n];
      AdmittedPrefix(prefix, startingPrice, n);
    } else {
      assert ledger[..n] == ledger;
    }
  }

  lemma {:induction false} AdmittedNonNegative(ledger: seq<Bid>, startingPrice: Money)
    requires Admitted(ledger, startingPrice) && startingPrice >= 0
    ensures forall k :: 0 <= k < |ledger| ==> ledger[k].amount >= 0
    decreases |ledger|
  {
    if |ledger| > 0 {
      var prefix := ledger[..|ledger| - 1];
      AdmittedNonNegative(prefix, startingPrice);
      if |prefix| > 0 {
        assert prefix[0] in prefix;
      }
      assert forall k :: 0 <= k < |prefix| ==> ledger[k] == prefix[k];
    }
  }

  /** Every admitted bid is at least 1.10 times the one admitted before it. */
  lemma {:induction false} AdmittedMargin(ledger: seq<Bid>, startingPrice: Money, k: nat)
    requires Admitted(ledger, startingPrice)
    requires 0 < k < |ledger|
    ensures MeetsMinimumIncrement(ledger[k].amount, ledger[k - 1].amount)
  {
    AdmittedPrefix(ledger, startingPrice, k + 1);
    var upto := ledger[..k + 1];
    var before := upto[..k];
    assert before == ledger[..k];
    assert ledger[k - 1] in before;
  }

  /** The first admitted bid is at least 1.10 times the starting price. */
  lemma {:induction false} AdmittedFirst(ledger: seq<Bid>, startingPrice: Money)
    requires Admitted(ledger, startingPrice) && |ledger| > 0
    ensures MeetsMinimumIncrement(ledger[0].amount, startingPrice)
  {
    AdmittedPrefix(ledger, startingPrice, 1);
    assert ledger[..1][..0] == [];
  }

  /** With a positive starting price, admitted amounts strictly increase. */
  lemma {:induction false} AdmittedStrictlyIncreasing(ledger: seq<Bid>, startingPrice: Money, i: nat, j: nat)
    requires Admitted(ledger, startingPrice) && startingPrice > 0
    requires i < j < |ledger|
    ensures startingPrice < ledger[i].amount < ledger[j].amount
    decreases j
  {
    AdmittedFirst(ledger, startingPrice);
    AdmittedNonNegative(ledger, startingPrice);
    AdmittedMargin(ledger, startingPrice, j);
    if i < j - 1 {
      AdmittedStrictlyIncreasing(ledger, startingPrice, i, j - 1);
    } else if i > 0 {
      AdmittedStrictlyIncreasing(ledger, startingPrice, 0, i);
    }
  }

  /** With a non-negative starting price, the latest admitted bid holds the
      current (highest) amount. */
  lemma {:induction false} AdmittedLatestIsHighest(ledger: seq<Bid>, startingPrice: Money)
    requires Admitted(ledger, startingPrice) && startingPrice >= 0 && |ledger| > 0
    ensures MaxAmount(ledger) == ledger[|ledger| - 1].amount
  {
    var prefix := ledger[..|ledger| - 1];
    AdmittedNonNegative(ledger, startingPrice);
    if |prefix| > 0 {
      var m := MaxAmount(prefix);
      var b :| b in prefix && b.amount == m;
      assert ledger[|ledger| - 1].amount >= m;
    }
  }
}
