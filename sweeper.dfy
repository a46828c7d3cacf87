/** The expiry sweep: every active auction whose end date has come is
    closed, one after another, until a close fails. It runs once when the
    server starts and then periodically. */
module Sweeper {
  import opened Common
  import opened BidModel
  import opened AuctionModel
  import opened Store
  import opened AuctionController

  /** Positions in strictly increasing order. */
  predicate Increasing(batch: seq<nat>) {
    forall p, q :: 0 <= p < q < |batch| ==> batch[p] < batch[q]
  }

  /** The positions the sweep's query finds: the active auctions whose end
      date is at or before now, in storage order. */
  function ExpiredIndices(auctions: seq<Auction>, now: Time): (r: seq<nat>)
    ensures forall q :: 0 <= q < |r| ==> r[q] < |auctions| && Expired(auctions[r[q]], now)
    ensures forall k :: 0 <= k < |auctions| && Expired(auctions[k], now) ==> k in r
    ensures Increasing(r)
  {
    if |auctions| == 0 then []
    else
      var n := |auctions| - 1;
      var prefix := auctions[..n];
      var r := ExpiredIndices(prefix, now);
      assert forall q :: 0 <= q < |r| ==> r[q] < n && auctions[r[q]] == prefix[r[q]];
      assert forall k :: 0 <= k < n ==> auctions[k] == prefix[k];
      r + (if Expired(auctions[n], now) then [n] else [])
  }

  /** The first position, from `from` on, of an expired auction whose close
      fails, or the length of the collection when there is none. */
  function FirstFailingFrom(auctions: seq<Auction>, now: Time, failing: set<Id>, from: nat): (c: nat)
    requires from <= |auctions|
    ensures from <= c <= |auctions|
    ensures forall k :: from <= k < c && Expired(auctions[k], now) ==> auctions[k].id !in failing
    ensures c < |auctions| ==> Expired(auctions[c], now) && auctions[c].id in failing
    decreases |auctions| - from
  {
    if from == |auctions| then from
    else if Expired(auctions[from], now) && auctions[from].id in failing then from
    else FirstFailingFrom(auctions, now, failing, from + 1)
  }

  /** Where the sweep stops: the first expired auction whose close fails. */
  function Cutoff(auctions: seq<Auction>, now: Time, failing: set<Id>): (c: nat)
    ensures c <= |auctions|
    ensures forall k :: 0 <= k < c && Expired(auctions[k], now) ==> auctions[k].id !in failing
    ensures c < |auctions| ==> Expired(auctions[c], now) && auctions[c].id in failing
  {
    FirstFailingFrom(auctions, now, failing, 0)
  }

  /** The auctions once every expired one before position c is closed. */
  function ClosedBelow(auctions: seq<Auction>, bids: seq<Bid>, c: nat, now: Time): (r: seq<Auction>)
    ensures |r| == |auctions|
    ensures forall k :: 0 <= k < |r| ==> r[k].id == auctions[k].id
  {
    seq(|auctions|, k requires 0 <= k < |auctions| =>
      if k < c && Expired(auctions[k], now) then Close(auctions[k], bids, now) else auctions[k])
  }

  /** checkExpiredAuctions on a database state: the batch is closed in order,
      and a close that fails throws out of the loop, so the auctions from it
      on stay as they are until the next run; the error is swallowed.
      `failing` names the auctions whose close would fail. */
  function Sweep(s: State, now: Time, failing: set<Id>): State {
    s.(auctions := ClosedBelow(s.auctions, s.bids, Cutoff(s.auctions, now, failing), now))
  }

  /** How far the loop has got after i closes. */
  function Bound(batch: seq<nat>, i: nat, n: nat): nat {
    if i < |batch| then batch[i] else n
  }

  /** Before the loop, nothing is closed. */
  lemma SweepStart(found: seq<Auction>, bids: seq<Bid>, now: Time)
    ensures ClosedBelow(found, bids, Bound(ExpiredIndices(found, now), 0, |found|), now) == found
  {
  }

  /** No expired auction lies between two consecutive ones of the batch. */
  lemma NoExpiredBetween(found: seq<Auction>, now: Time, i: nat, k: nat)
    requires i < |ExpiredIndices(found, now)|
    requires ExpiredIndices(found, now)[i] < k < Bound(ExpiredIndices(found, now), i + 1, |found|)
    ensures !Expired(found[k], now)
  {
  }

  /** Closing the i-th auction of the batch moves the bound to the next one. */
  lemma SweepStep(found: seq<Auction>, bids: seq<Bid>, now: Time, i: nat)
    requires i < |ExpiredIndices(found, now)|
    ensures var batch := ExpiredIndices(found, now);
      ClosedBelow(found, bids, Bound(batch, i + 1, |found|), now)
      == ClosedBelow(found, bids, batch[i], now)[batch[i] := Close(found[batch[i]], bids, now)]
  {
    var batch := ExpiredIndices(found, now);
    var before := ClosedBelow(found, bids, batch[i], now);
    var after := ClosedBelow(found, bids, Bound(batch, i + 1, |found|), now);
    forall k | 0 <= k < |found| ensures after[k] == before[batch[i] := Close(found[batch[i]], bids, now)][k] {
      if batch[i] < k < Bound(batch, i + 1, |found|) {
        NoExpiredBetween(found, now, i, k);
      }
    }
  }

  /** Where the loop ends is where the sweep stops. */
  lemma SweepEnd(found: seq<Auction>, now: Time, failing: set<Id>, i: nat)
    requires i <= |ExpiredIndices(found, now)|
    requires forall q :: 0 <= q < i ==> found[ExpiredIndices(found, now)[q]].id !in failing
    requires i < |ExpiredIndices(found, now)| ==> found[ExpiredIndices(found, now)[i]].id in failing
    ensures Cutoff(found, now, failing) == Bound(ExpiredIndices(found, now), i, |found|)
  {
    var batch := ExpiredIndices(found, now);
    var b := Bound(batch, i, |found|);
    // Every expired auction before the bound is one of the first i of the
    // batch, whose closes succeed.
    forall k | 0 <= k < b && Expired(found[k], now) ensures found[k].id !in failing {
      var q :| 0 <= q < |batch| && batch[q] == k;
      assert q < i;
    }
    CutoffAtLeast(found, now, failing, b);
    if i < |batch| {
      CutoffAtMost(found, now, failing, batch[i]);
    }
  }

  /** The sweep gets past every position before b when no close there fails. */
  lemma CutoffAtLeast(found: seq<Auction>, now: Time, failing: set<Id>, b: nat)
    requires b <= |found|
    requires forall k :: 0 <= k < b && Expired(found[k], now) ==> found[k].id !in failing
    ensures Cutoff(found, now, failing) >= b
  {
  }

  /** The sweep stops at or before an expired auction whose close fails. */
  lemma CutoffAtMost(found: seq<Auction>, now: Time, failing: set<Id>, p: nat)
    requires p < |found| && Expired(found[p], now) && found[p].id in failing
    ensures Cutoff(found, now, failing) <= p
  {
  }

  /** checkExpiredAuctions: the query, then closeAuction on each document found. */
  method CheckExpiredAuctions(db: Database, now: Time, failing: set<Id>)
    requires DistinctIds(db.auctions)
    modifies db
    ensures db.Contents() == Sweep(old(db.Contents()), now, failing)
  {
    var found := db.auctions;
    var batch := ExpiredIndices(found, now);
    SweepStart(found, db.bids, now);
    var i := 0;
    while i < |batch|
      invariant 0 <= i <= |batch|
      invariant forall q :: 0 <= q < i ==> found[batch[q]].id !in failing
      invariant db.bids == old(db.bids) && db.categories == old(db.categories)
      invariant db.auctions == ClosedBelow(found, db.bids, Bound(batch, i, |found|), now)
    {
      var auction := new AuctionDoc.Hydrate(found[batch[i]]);
      if auction.id in failing {
        break;
      }
      SweepStep(found, db.bids, now, i);
      SameIdsKeepDistinct(found, db.auctions);
      ReplaceAtIndex(db.auctions, batch[i], Close(found[batch[i]], db.bids, now));
      auction.CloseAuction(db, now);
      i := i + 1;
    }
    SweepEnd(found, now, failing, i);
  }

  /** handleMissedAuctionsOnStartup: one sweep at server start. */
  method HandleMissedAuctionsOnStartup(db: Database, now: Time, failing: set<Id>)
    requires DistinctIds(db.auctions)
    modifies db
    ensures db.Contents() == Sweep(old(db.Contents()), now, failing)
  {
    CheckExpiredAuctions(db, now, failing);
  }

  /** The sweep changes only auctions its query selects: every auction that
      is not expired, and every closed one, keeps its value; bids and
      categories stay. */
  lemma SweepLeavesOthers(s: State, now: Time, failing: set<Id>)
    ensures var s' := Sweep(s, now, failing);
      && s'.bids == s.bids && s'.categories == s.categories
      && |s'.auctions| == |s.auctions|
      && forall k :: 0 <= k < |s.auctions| && !Expired(s.auctions[k], now) ==> s'.auctions[k] == s.auctions[k]
  {
  }

  /** The batch is closed in order up to the first auction whose close fails;
      that auction, and every expired one after it, is left active. */
  lemma SweepStopsAtFirstFailure(s: State, now: Time, failing: set<Id>)
    ensures var c := Cutoff(s.auctions, now, failing);
      var s' := Sweep(s, now, failing);
      && (forall k :: 0 <= k < c && Expired(s.auctions[k], now) ==>
            s.auctions[k].id !in failing && s'.auctions[k] == Close(s.auctions[k], s.bids, now))
      && (forall k :: c <= k < |s.auctions| ==> s'.auctions[k] == s.auctions[k])
      && (c < |s.auctions| ==> s.auctions[c].id in failing && Expired(s'.auctions[c], now))
  {
  }

  /** When no close fails, no auction is left active past its end date, and
      each expired auction is closed as closeAuction closes it. */
  lemma SweepClosesEveryExpired(s: State, now: Time, failing: set<Id>)
    requires forall k :: 0 <= k < |s.auctions| && Expired(s.auctions[k], now) ==> s.auctions[k].id !in failing
    ensures var s' := Sweep(s, now, failing);
      && (forall k :: 0 <= k < |s'.auctions| ==> !Expired(s'.auctions[k], now))
      && (forall k :: 0 <= k < |s.auctions| && Expired(s.auctions[k], now) ==>
            s'.auctions[k] == Close(s.auctions[k], s.bids, now))
  {
    assert Cutoff(s.auctions, now, failing) == |s.auctions|;
    forall k | 0 <= k < |s.auctions| && Expired(s.auctions[k], now)
      ensures !Expired(Close(s.auctions[k], s.bids, now), now)
    {
      CloseOutcome(s.auctions[k], s.bids, now);
    }
  }

  /** A collection with no expired auction before the cutoff is left as it is. */
  lemma NothingToClose(r: seq<Auction>, bids: seq<Bid>, c: nat, now: Time)
    requires forall k :: 0 <= k < c && k < |r| ==> !Expired(r[k], now)
    ensures ClosedBelow(r, bids, c, now) == r
  {
  }

  /** Sweeping twice at the same time, with the same closes failing, is
      sweeping once: the second run stops at once at the same failing
      auction, or finds nothing. */
  lemma {:induction false} SweepIdempotent(s: State, now: Time, failing: set<Id>)
    ensures Sweep(Sweep(s, now, failing), now, failing) == Sweep(s, now, failing)
  {
    var a := s.auctions;
    var c := Cutoff(a, now, failing);
    var r := ClosedBelow(a, s.bids, c, now);
    var c' := Cutoff(r, now, failing);
    forall k | 0 <= k < c' && k < |r| ensures !Expired(r[k], now) {
      if k < c && Expired(a[k], now) {
        CloseOutcome(a[k], s.bids, now);
      }
    }
    NothingToClose(r, s.bids, c', now);
  }

  /** Once a sweep meets no failure, a second sweep changes nothing, whichever
      closes would fail then. */
  lemma SweepSettles(s: State, now: Time, failing: set<Id>, later: set<Id>)
    requires forall k :: 0 <= k < |s.auctions| && Expired(s.auctions[k], now) ==> s.auctions[k].id !in failing
    ensures Sweep(Sweep(s, now, failing), now, later) == Sweep(s, now, failing)
  {
    SweepClosesEveryExpired(s, now, failing);
    var s1 := Sweep(s, now, failing);
    NothingToClose(s1.auctions, s1.bids, Cutoff(s1.auctions, now, later), now);
  }
}
