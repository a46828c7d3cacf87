/** What every handler keeps true of the database: auction ids are unique,
    every auction meets its schema, an active auction has no winner, a
    closed auction's winner is its highest bidder, every auction's bids met
    the 10% rule when admitted, and a closed auction's state and bids never
    change again. */
module Invariants {
  import opened Common
  import opened BidModel
  import opened AuctionModel
  import opened Store
  import opened BidController
  import opened AuctionController
  import opened AuctionRoutes
  import opened CategoryController
  import opened Seeding
  import opened Sweeper

  /** The invariant of one auction, given its ledger (its bids in insertion order). */
  predicate AuctionValidOn(l: seq<Bid>, a: Auction) {
    && a.startingPrice >= 0 && a.title != ""
    && (a.status == Active ==> a.winner.None?)
    && (a.winner.None? ==> a.currentBid == 0)
    && (a.winner.Some? ==>
          && a.status == Closed && |l| > 0
          && a.winner.value == Best(l).value.user
          && a.currentBid == CurrentOf(l, a.startingPrice)
          && a.currentBid > a.startingPrice)
    && Admitted(l, a.startingPrice)
  }

  predicate AuctionValid(bids: seq<Bid>, a: Auction) {
    AuctionValidOn(Ledger(bids, a.id), a)
  }

  predicate AllValid(bids: seq<Bid>, auctions: seq<Auction>) {
    forall k {:trigger AuctionValid(bids, auctions[k])} :: 0 <= k < |auctions| ==> AuctionValid(bids, auctions[k])
  }

  predicate StoreInvariant(s: State) {
    DistinctIds(s.auctions) && AllValid(s.bids, s.auctions)
  }

  /** A closed auction stays closed with the same outcome. */
  predicate Frozen(a: Auction, a': Auction) {
    && a'.status == Closed && a'.winner == a.winner && a'.currentBid == a.currentBid
    && a'.startingPrice == a.startingPrice && a'.bids == a.bids
  }

  /** From s to s', every auction closed in s that is still stored is frozen,
      and its bids are the same. */
  predicate ClosedFrozen(s: State, s': State) {
    FrozenAcross(s.auctions, s'.auctions) && LedgersKept(s.auctions, s.bids, s'.bids)
  }

  /** Every auction closed in a that is still in a' under its id is frozen there. */
  predicate FrozenAcross(a: seq<Auction>, a': seq<Auction>) {
    forall i, j ::
      (0 <= i < |a| && 0 <= j < |a'| && a[i].status == Closed && a'[j].id == a[i].id) ==>
        Frozen(a[i], a'[j])
  }

  /** Every auction closed in a has the same ledger in bids' as in bids. */
  predicate LedgersKept(a: seq<Auction>, bids: seq<Bid>, bids': seq<Bid>) {
    forall i :: 0 <= i < |a| && a[i].status == Closed ==> Ledger(bids', a[i].id) == Ledger(bids, a[i].id)
  }

  // ---------------------------------------------------------------- meaning

  /** What the invariant says of a closed auction with a winner: the winner
      placed a bid of exactly the recorded amount, which is getCurrentBid()
      and the highest amount bid, and above the starting price. */
  lemma WinnerIsTheHighestBid(s: State, k: nat)
    requires StoreInvariant(s) && k < |s.auctions| && s.auctions[k].winner.Some?
    ensures var a := s.auctions[k];
      && a.status == Closed
      && a.currentBid == CurrentBid(s.bids, a) && a.currentBid > a.startingPrice
      && (exists b :: b in s.bids && b.auction == a.id && b.user == a.winner.value && b.amount == a.currentBid)
      && (forall b :: b in s.bids && b.auction == a.id ==> b.amount <= a.currentBid)
  {
    var a := s.auctions[k];
    assert AuctionValid(s.bids, a);
    var l := Ledger(s.bids, a.id);
    var w := Best(l).value;
    assert WinningBid(s.bids, a.id) == Best(l);
    WinningAmountIsCurrent(s.bids, a);
    assert w in l;
  }

  /** Every bid of an auction is at least 1.10 times the one before it, and
      the first at least 1.10 times the starting price. */
  lemma LedgerMargins(s: State, k: nat)
    requires StoreInvariant(s) && k < |s.auctions|
    ensures var a := s.auctions[k];
      var l := Ledger(s.bids, a.id);
      && (|l| > 0 ==> MeetsMinimumIncrement(l[0].amount, a.startingPrice))
      && (forall n :: 0 < n < |l| ==> MeetsMinimumIncrement(l[n].amount, l[n - 1].amount))
  {
    var a := s.auctions[k];
    assert AuctionValid(s.bids, a);
    var l := Ledger(s.bids, a.id);
    if |l| > 0 {
      AdmittedFirst(l, a.startingPrice);
    }
    forall n | 0 < n < |l| ensures MeetsMinimumIncrement(l[n].amount, l[n - 1].amount) {
      AdmittedMargin(l, a.startingPrice, n);
    }
  }

  /** A store with no auctions meets the invariant. */
  lemma EmptyStoreValid(categories: seq<Category>)
    ensures StoreInvariant(State([], [], categories))
  {
  }

  // ---------------------------------------------------------------- helpers

  /** An id no bid refers to has an empty ledger. */
  lemma {:induction false} NoBidsForUnused(bids: seq<Bid>, id: Id)
    requires forall k :: 0 <= k < |bids| ==> bids[k].auction != id
    ensures Ledger(bids, id) == []
    decreases |bids|
  {
    if |bids| > 0 {
      NoBidsForUnused(bids[..|bids| - 1], id);
    }
  }

  /** Closing keeps an auction valid and leaves a closed one as it is. */
  lemma CloseKeepsValid(bids: seq<Bid>, a: Auction, now: Time)
    requires AuctionValid(bids, a)
    ensures AuctionValid(bids, Close(a, bids, now))
    ensures a.status == Closed ==> Close(a, bids, now) == a
  {
    if a.status == Active && WinningBid(bids, a.id).Some? {
      WinningAmountIsCurrent(bids, a);
    }
  }

  /** A step that changes nothing keeps the invariant and freezes trivially. */
  lemma NothingChanged(s: State)
    requires StoreInvariant(s)
    ensures ClosedFrozen(s, s)
  {
    PositionalFrozen(s.auctions, s.auctions);
  }

  /** A step that keeps every auction at its position with its id: the
      invariant and the freeze follow auction by auction. */
  lemma PositionalStep(s: State, s': State)
    requires StoreInvariant(s)
    requires |s'.auctions| == |s.auctions|
    requires forall k :: 0 <= k < |s.auctions| ==> s'.auctions[k].id == s.auctions[k].id
    requires forall k :: 0 <= k < |s.auctions| ==> AuctionValid(s'.bids, s'.auctions[k])
    requires forall k :: 0 <= k < |s.auctions| && s.auctions[k].status == Closed ==>
      Frozen(s.auctions[k], s'.auctions[k]) && Ledger(s'.bids, s.auctions[k].id) == Ledger(s.bids, s.auctions[k].id)
    ensures StoreInvariant(s') && ClosedFrozen(s, s')
  {
    SameIdsKeepDistinct(s.auctions, s'.auctions);
    PositionalFrozen(s.auctions, s'.auctions);
  }

  lemma PositionalFrozen(a: seq<Auction>, a': seq<Auction>)
    requires DistinctIds(a) && |a'| == |a|
    requires forall k :: 0 <= k < |a| ==> a'[k].id == a[k].id
    requires forall k :: 0 <= k < |a| && a[k].status == Closed ==> Frozen(a[k], a'[k])
    ensures FrozenAcross(a, a')
  {
    forall i, j | 0 <= i < |a| && 0 <= j < |a'| && a[i].status == Closed && a'[j].id == a[i].id
      ensures Frozen(a[i], a'[j])
    {
      assert a[j].id == a[i].id;
    }
  }

  lemma RemovalKeepsValid(bids: seq<Bid>, a: seq<Auction>, i: nat, r: seq<Auction>)
    requires i < |a| && forall k :: 0 <= k < |a| ==> AuctionValid(bids, a[k])
    requires r == a[..i] + a[i + 1..]
    ensures forall j :: 0 <= j < |r| ==> AuctionValid(bids, r[j])
  {
    forall j | 0 <= j < |r| ensures AuctionValid(bids, r[j]) {
      RemovedIndex(a, i, j);
    }
  }

  lemma RemovalKeepsFrozen(a: seq<Auction>, i: nat)
    requires DistinctIds(a) && i < |a|
    ensures FrozenAcross(a, a[..i] + a[i + 1..])
  {
    var r := a[..i] + a[i + 1..];
    forall x, j | 0 <= x < |a| && 0 <= j < |r| && a[x].status == Closed && r[j].id == a[x].id
      ensures Frozen(a[x], r[j])
    {
      RemovedIndex(a, i, j);
    }
  }

  /** A step that removes the auction at position i and changes nothing else. */
  lemma RemovalStep(s: State, s': State, i: nat)
    requires StoreInvariant(s) && i < |s.auctions|
    requires s'.auctions == s.auctions[..i] + s.auctions[i + 1..] && s'.bids == s.bids
    ensures StoreInvariant(s') && ClosedFrozen(s, s')
  {
    RemovalKeepsDistinct(s.auctions, i);
    RemovalKeepsValid(s.bids, s.auctions, i, s'.auctions);
    RemovalKeepsFrozen(s.auctions, i);
  }

  /** A step that appends a valid auction under a fresh id. */
  lemma AppendStep(s: State, s': State, a: Auction)
    requires StoreInvariant(s)
    requires s'.auctions == s.auctions + [a] && s'.bids == s.bids
    requires forall k :: 0 <= k < |s.auctions| ==> s.auctions[k].id != a.id
    requires AuctionValid(s.bids, a)
    ensures StoreInvariant(s') && ClosedFrozen(s, s')
  {
    AppendKeepsDistinct(s.auctions, a);
    AppendKeepsValid(s.bids, s.auctions, a);
    AppendFrozen(s.auctions, a);
  }

  lemma AppendKeepsDistinct(a: seq<Auction>, x: Auction)
    requires DistinctIds(a) && forall k :: 0 <= k < |a| ==> a[k].id != x.id
    ensures DistinctIds(a + [x])
  {
    var r := a + [x];
    forall i, j | 0 <= i < j < |r| ensures r[i].id != r[j].id {
      if j < |a| {
        assert r[i] == a[i] && r[j] == a[j];
      }
    }
  }

  lemma AppendKeepsValid(bids: seq<Bid>, a: seq<Auction>, x: Auction)
    requires AllValid(bids, a) && AuctionValid(bids, x)
    ensures AllValid(bids, a + [x])
  {
    var r := a + [x];
    forall k | 0 <= k < |r| ensures AuctionValid(bids, r[k]) {
      if k < |a| {
        assert r[k] == a[k];
      }
    }
  }

  lemma AppendFrozen(a: seq<Auction>, x: Auction)
    requires DistinctIds(a) && forall k :: 0 <= k < |a| ==> a[k].id != x.id
    ensures FrozenAcross(a, a + [x])
  {
    var r := a + [x];
    forall i, j | 0 <= i < |a| && 0 <= j < |r| && a[i].status == Closed && r[j].id == a[i].id
      ensures Frozen(a[i], r[j])
    {
      assert j < |a| && r[j] == a[j];
    }
  }

  // ---------------------------------------------------------------- handlers

  lemma CreateAuctionKeepsInvariant(s: State, caller: Id, title: string, description: string,
                                    startingPrice: Money, endDate: DateInput, category: string,
                                    newId: Id, now: Time)
    requires StoreInvariant(s)
    ensures var s' := CreateAuctionSpec(s, caller, title, description, startingPrice, endDate, category, newId, now).1;
      StoreInvariant(s') && ClosedFrozen(s, s')
  {
    var (r, s') := CreateAuctionSpec(s, caller, title, description, startingPrice, endDate, category, newId, now);
    if r.Created? {
      CreateAuctionOutcome(s, caller, title, description, startingPrice, endDate, category, newId, now);
      NoBidsForUnused(s.bids, newId);
      AppendStep(s, s', r.body);
    }
  }

  lemma DeleteKeepsInvariant(s: State, caller: Id, id: string)
    requires StoreInvariant(s)
    ensures var s' := DeleteAuctionSpec(s, caller, id).1;
      StoreInvariant(s') && ClosedFrozen(s, s')
  {
    match LookupAuction(s.auctions, id)
    case Found(i) =>
      if s.auctions[i].seller == caller {
        RemovalStep(s, s.(auctions := s.auctions[..i] + s.auctions[i + 1..]), i);
      } else {
        NothingChanged(s);
      }
    case _ =>
      NothingChanged(s);
  }

  lemma CreateCategoryKeepsInvariant(s: State, name: string, newId: Id)
    requires StoreInvariant(s)
    ensures var s' := CreateCategorySpec(s, name, newId).1;
      StoreInvariant(s') && ClosedFrozen(s, s')
  {
    var s' := CreateCategorySpec(s, name, newId).1;
    assert s'.auctions == s.auctions && s'.bids == s.bids;
    PositionalStep(s, s');
  }

  lemma SeedKeepsInvariant(s: State, ids: seq<Id>)
    requires StoreInvariant(s) && |ids| == |InitialCategories|
    ensures StoreInvariant(SeedSpec(s, ids)) && ClosedFrozen(s, SeedSpec(s, ids))
  {
    InsertInOrderAppends(s, SeedDocs(ids));
    PositionalStep(s, SeedSpec(s, ids));
  }

  lemma UpdateKeepsInvariant(s: State, caller: Id, id: string, title: string, description: string,
                             endDate: DateInput, now: Time)
    requires StoreInvariant(s)
    ensures var s' := UpdateAuctionSpec(s, caller, id, title, description, endDate, now).1;
      StoreInvariant(s') && ClosedFrozen(s, s')
  {
    var s' := UpdateAuctionSpec(s, caller, id, title, description, endDate, now).1;
    if s' != s {
      var i := LookupAuction(s.auctions, id).index;
      var edited := Edited(s.auctions[i], title, description, endDate);
      assert AuctionValid(s.bids, s.auctions[i]);
      assert s'.auctions == s.auctions[i := edited] && s'.bids == s.bids;
      assert AuctionValid(s.bids, edited);
    }
    PositionalStep(s, s');
  }

  lemma GetAuctionByIdKeepsInvariant(s: State, id: string, now: Time)
    requires StoreInvariant(s)
    ensures var s' := GetAuctionByIdSpec(s, id, now).1;
      StoreInvariant(s') && ClosedFrozen(s, s')
  {
    var s' := GetAuctionByIdSpec(s, id, now).1;
    if s' != s {
      var i := LookupAuction(s.auctions, id).index;
      CloseKeepsValid(s.bids, s.auctions[i], now);
      assert s'.auctions == s.auctions[i := Close(s.auctions[i], s.bids, now)] && s'.bids == s.bids;
    }
    PositionalStep(s, s');
  }

  lemma SweepKeepsInvariant(s: State, now: Time, failing: set<Id>)
    requires StoreInvariant(s)
    ensures StoreInvariant(Sweep(s, now, failing)) && ClosedFrozen(s, Sweep(s, now, failing))
  {
    var s' := Sweep(s, now, failing);
    forall k | 0 <= k < |s.auctions| ensures AuctionValid(s.bids, s'.auctions[k]) {
      CloseKeepsValid(s.bids, s.auctions[k], now);
    }
    PositionalStep(s, s');
  }

  /** The bid createBid stores extends its auction's ledger as admitted, and
      leaves every other ledger as it was. */
  lemma BidStep(s: State, i: nat, bid: Bid)
    requires StoreInvariant(s) && i < |s.auctions|
    requires bid.auction == s.auctions[i].id && s.auctions[i].status == Active
    requires MeetsMinimumIncrement(bid.amount, CurrentBid(s.bids, s.auctions[i]))
    ensures AuctionValid(s.bids + [bid], s.auctions[i])
    ensures forall k :: 0 <= k < |s.auctions| && k != i ==>
      Ledger(s.bids + [bid], s.auctions[k].id) == Ledger(s.bids, s.auctions[k].id)
  {
    var a := s.auctions[i];
    assert AuctionValid(s.bids, a);
    LedgerAppend(s.bids, bid, a.id);
    var l := Ledger(s.bids, a.id);
    var l' := Ledger(s.bids + [bid], a.id);
    assert l'[..|l'| - 1] == l;
    forall k | 0 <= k < |s.auctions| && k != i
      ensures Ledger(s.bids + [bid], s.auctions[k].id) == Ledger(s.bids, s.auctions[k].id)
    {
      LedgerAppend(s.bids, bid, s.auctions[k].id);
    }
  }

  /** A step of createBid that stores the bid: the auction itself is kept or
      gets the bid's id pushed onto its list. */
  lemma BidPositional(s: State, s': State, i: nat, bid: Bid, a': Auction)
    requires StoreInvariant(s) && i < |s.auctions|
    requires bid.auction == s.auctions[i].id && s.auctions[i].status == Active
    requires MeetsMinimumIncrement(bid.amount, CurrentBid(s.bids, s.auctions[i]))
    requires a' == s.auctions[i] || a' == s.auctions[i].(bids := s.auctions[i].bids + [bid.id])
    requires s'.bids == s.bids + [bid] && s'.auctions == s.auctions[i := a']
    ensures StoreInvariant(s') && ClosedFrozen(s, s')
  {
    BidStep(s, i, bid);
    assert AuctionValid(s'.bids, a') by {
      assert AuctionValid(s'.bids, s.auctions[i]);
    }
    ActiveUpdateStep(s, s', i, a');
  }

  /** A step that replaces the active auction at position i, under the same
      id, with one valid on the new bids, and keeps every other ledger. */
  lemma ActiveUpdateStep(s: State, s': State, i: nat, a': Auction)
    requires StoreInvariant(s) && i < |s.auctions| && s.auctions[i].status == Active
    requires s'.auctions == s.auctions[i := a'] && a'.id == s.auctions[i].id
    requires AuctionValid(s'.bids, a')
    requires forall k :: 0 <= k < |s.auctions| && k != i ==>
      Ledger(s'.bids, s.auctions[k].id) == Ledger(s.bids, s.auctions[k].id)
    ensures StoreInvariant(s') && ClosedFrozen(s, s')
  {
    forall k | 0 <= k < |s.auctions| && k != i
      ensures s'.auctions[k] == s.auctions[k] && AuctionValid(s'.bids, s'.auctions[k])
    {
      assert AuctionValid(s.bids, s.auctions[k]);
    }
    assert s'.auctions[i] == a';
    PositionalStep(s, s');
  }

  lemma CreateBidKeepsInvariant(s: State, caller: Id, auctionId: string, amount: Money, bidId: Id, now: Time)
    requires StoreInvariant(s)
    ensures var s' := CreateBidSpec(s, caller, auctionId, amount, bidId, now).1;
      StoreInvariant(s') && ClosedFrozen(s, s')
  {
    var s' := CreateBidSpec(s, caller, auctionId, amount, bidId, now).1;
    if RequestErrors(auctionId, amount) == [] && LookupAuction(s.auctions, auctionId).Found? {
      var i := LookupAuction(s.auctions, auctionId).index;
      var a := s.auctions[i];
      if a.status == Active && a.seller != caller && MeetsMinimumIncrement(amount, CurrentBid(s.bids, a)) &&
         Unused(s, bidId)
      {
        var bid := NewBid(bidId, auctionId, caller, amount, now);
        var pushed := a.(bids := a.bids + [bidId]);
        if SchemaValid(pushed, now) {
          BidPositional(s, s', i, bid, pushed);
        } else {
          BidPositional(s, s', i, bid, a);
        }
        return;
      }
    }
    PositionalStep(s, s');
  }
}
