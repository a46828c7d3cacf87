/** The database: the auction, bid and category collections, and the auction
    document object that handlers load, change in place and save back. */
module Store {
  import opened Common
  import opened BidModel
  import opened AuctionModel

  datatype Category = Category(id: Id, name: string)

  /** The contents of the database at one moment; every collection keeps its
      documents in insertion order. */
  datatype State = State(auctions: seq<Auction>, bids: seq<Bid>, categories: seq<Category>)

  /** The position of the first auction with this id. */
  function FindAuction(auctions: seq<Auction>, id: Id): (r: Option<nat>)
    ensures r.Some? ==> r.value < |auctions| && auctions[r.value].id == id
    ensures r.Some? ==> forall k :: 0 <= k < r.value ==> auctions[k].id != id
    ensures r.None? ==> forall k :: 0 <= k < |auctions| ==> auctions[k].id != id
  {
    if |auctions| == 0 then None
    else if auctions[0].id == id then Some(0)
    else match FindAuction(auctions[1..], id)
         case None => None
         case Some(k) => Some(k + 1)
  }

  /** The outcome of findById on the auction collection. */
  datatype Lookup = CastFailure | Missing | Found(index: nat)

  /** findById: a string that is not an ObjectId makes the query throw; a
      castable one either finds its document or finds nothing. */
  function LookupAuction(auctions: seq<Auction>, id: string): (r: Lookup)
    ensures r.CastFailure? <==> !IsObjectIdString(id)
    ensures r.Found? ==> r.index < |auctions| && auctions[r.index].id == id
    ensures r.Missing? ==> forall k :: 0 <= k < |auctions| ==> auctions[k].id != id
  {
    if !IsObjectIdString(id) then CastFailure
    else match FindAuction(auctions, id)
         case None => Missing
         case Some(k) => Found(k)
  }

  /** save() of a loaded document: the stored document with that id is overwritten. */
  function ReplaceById(auctions: seq<Auction>, a: Auction): (r: seq<Auction>)
    ensures |r| == |auctions|
  {
    match FindAuction(auctions, a.id)
    case None => auctions
    case Some(k) => auctions[k := a]
  }

  lemma ReplaceAtFound(auctions: seq<Auction>, id: string, a: Auction)
    requires LookupAuction(auctions, id).Found? && a.id == id
    ensures ReplaceById(auctions, a) == auctions[LookupAuction(auctions, id).index := a]
  {
  }

  /** No two stored auctions share an id: the database's _id index. */
  predicate DistinctIds(auctions: seq<Auction>) {
    forall i, j :: 0 <= i < j < |auctions| ==> auctions[i].id != auctions[j].id
  }

  /** With distinct ids, the document a save overwrites is the one at the
      position of its id. */
  lemma ReplaceAtIndex(auctions: seq<Auction>, k: nat, a: Auction)
    requires DistinctIds(auctions) && k < |auctions| && auctions[k].id == a.id
    ensures ReplaceById(auctions, a) == auctions[k := a]
  {
    assert FindAuction(auctions, a.id).Some?;
  }

  /** Changing only auctions that keep the id at their position keeps ids
      distinct. */
  lemma SameIdsKeepDistinct(a: seq<Auction>, b: seq<Auction>)
    requires DistinctIds(a) && |a| == |b|
    requires forall k :: 0 <= k < |a| ==> a[k].id == b[k].id
    ensures DistinctIds(b)
  {
    forall i, j | 0 <= i < j < |b| ensures b[i].id != b[j].id {
      assert a[i].id != a[j].id;
    }
  }

  /** Position j after removing position i. */
  lemma RemovedIndex(a: seq<Auction>, i: nat, j: nat)
    requires i < |a| && j < |a| - 1
    ensures (a[..i] + a[i + 1..])[j] == a[if j < i then j else j + 1]
  {
  }

  /** Removing one auction keeps the others' ids distinct. */
  lemma RemovalKeepsDistinct(a: seq<Auction>, i: nat)
    requires DistinctIds(a) && i < |a|
    ensures DistinctIds(a[..i] + a[i + 1..])
  {
    var r := a[..i] + a[i + 1..];
    forall x, y | 0 <= x < y < |r| ensures r[x].id != r[y].id {
      RemovedIndex(a, i, x);
      RemovedIndex(a, i, y);
    }
  }

  /** With distinct ids, removing position i removes exactly the auction with
      that id. */
  lemma RemovalContents(a: seq<Auction>, i: nat)
    requires DistinctIds(a) && i < |a|
    ensures forall x :: x in a[..i] + a[i + 1..] <==> x in a && x.id != a[i].id
  {
    var r := a[..i] + a[i + 1..];
    forall x | x in r ensures x in a && x.id != a[i].id {
      var j :| 0 <= j < |r| && r[j] == x;
      RemovedIndex(a, i, j);
    }
    forall x | x in a && x.id != a[i].id ensures x in r {
      var k :| 0 <= k < |a| && a[k] == x;
      if k < i {
        RemovedIndex(a, i, k);
      } else {
        RemovedIndex(a, i, k - 1);
      }
    }
  }

  /** No stored document carries id or refers to it as its auction. The id
      generator never hands out such an id; the model answers one with the
      database's duplicate-key error. */
  predicate Unused(s: State, id: Id) {
    && (forall k :: 0 <= k < |s.auctions| ==> s.auctions[k].id != id)
    && (forall k :: 0 <= k < |s.bids| ==> s.bids[k].id != id && s.bids[k].auction != id)
    && (forall k :: 0 <= k < |s.categories| ==> s.categories[k].id != id)
  }

  class Database {
    var auctions: seq<Auction>
    var bids: seq<Bid>
    var categories: seq<Category>

    function Contents(): State
      reads this
    {
      State(auctions, bids, categories)
    }

    constructor Open(s: State)
      ensures Contents() == s
    {
      auctions, bids, categories := s.auctions, s.bids, s.categories;
    }

    /** Inserting a new auction document. */
    method InsertAuction(a: Auction) returns (ok: bool)
      modifies this
      ensures ok == Unused(old(Contents()), a.id)
      ensures Contents() == if ok then old(Contents()).(auctions := old(auctions) + [a]) else old(Contents())
    {
      ok := Unused(Contents(), a.id);
      if ok {
        auctions := auctions + [a];
      }
    }

    /** Inserting a new bid document. */
    method InsertBid(b: Bid) returns (ok: bool)
      modifies this
      ensures ok == Unused(old(Contents()), b.id)
      ensures Contents() == if ok then old(Contents()).(bids := old(bids) + [b]) else old(Contents())
    {
      ok := Unused(Contents(), b.id);
      if ok {
        bids := bids + [b];
      }
    }

    /** Inserting a new category document. */
    method InsertCategory(c: Category) returns (ok: bool)
      modifies this
      ensures ok == Unused(old(Contents()), c.id)
      ensures Contents() == if ok then old(Contents()).(categories := old(categories) + [c]) else old(Contents())
    {
      ok := Unused(Contents(), c.id);
      if ok {
        categories := categories + [c];
      }
    }

    /** Writing a loaded auction document back. */
    method WriteAuction(a: Auction)
      modifies this
      ensures Contents() == old(Contents()).(auctions := ReplaceById(old(auctions), a))
    {
      auctions := ReplaceById(auctions, a);
    }

    /** findByIdAndDelete on a found position. */
    method DeleteAuctionAt(k: nat)
      requires k < |auctions|
      modifies this
      ensures Contents() == old(Contents()).(auctions := old(auctions)[..k] + old(auctions)[k + 1..])
    {
      auctions := auctions[..k] + auctions[k + 1..];
    }
  }

  /** An auction document as loaded by a query: its fields are changed in
      place and then saved. */
  class AuctionDoc {
    var id: Id
    var title: string
    var description: string
    var startingPrice: Money
    var endDate: Time
    var seller: Id
    var category: Id
    var bids: seq<Id>
    var status: Status
    var winner: Option<Id>
    var currentBid: Money

    function Record(): Auction
      reads this
    {
      Auction(id, title, description, startingPrice, endDate, seller, category,
              bids, status, winner, currentBid)
    }

    /** A document hydrated from a stored record. */
    constructor Hydrate(a: Auction)
      ensures Record() == a
    {
      id, title, description, startingPrice := a.id, a.title, a.description, a.startingPrice;
      endDate, seller, category, bids := a.endDate, a.seller, a.category, a.bids;
      status, winner, currentBid := a.status, a.winner, a.currentBid;
    }

    /** save() with full validation: a document that fails the schema is not
        written and the call reports a validation error. */
    method Save(db: Database, now: Time) returns (ok: bool)
      modifies db
      ensures ok == SchemaValid(Record(), now)
      ensures db.Contents() == if ok then old(db.Contents()).(auctions := ReplaceById(old(db.auctions), Record()))
                               else old(db.Contents())
    {
      ok := SchemaValid(Record(), now);
      if ok {
        db.WriteAuction(Record());
      }
    }

    /** closeAuction: a closed document is left alone; otherwise the winner
        and current bid are decided from the bid collection, the status
        becomes closed, endDate becomes the closing time, and the document is
        saved. The save validates only the changed fields, and the endDate
        validator accepts any date once the status is closed, so it always
        succeeds. */
    method CloseAuction(db: Database, now: Time)
      modifies this, db
      ensures Record() == Close(old(Record()), old(db.bids), now)
      ensures db.Contents() == if old(status) == Closed then old(db.Contents())
                               else old(db.Contents()).(auctions := ReplaceById(old(db.auctions), Record()))
    {
      if status == Closed {
        return;
      }
      ghost var before := Record();
      var winningBid := WinningBid(db.bids, id);
      if winningBid.Some? && winningBid.value.amount > startingPrice {
        winner := Some(winningBid.value.user);
        currentBid := winningBid.value.amount;
      }
      status := Closed;
      endDate := now;
      assert Record() == Close(before, db.bids, now);
      db.WriteAuction(Record());
    }
  }
}
