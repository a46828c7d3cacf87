/** The category seed run when the database connection opens: the initial
    categories are inserted only into an empty collection. */
module Seeding {
  import opened Common
  import opened Store
  import opened CategoryController

  /** The initial category names, in insertion order. */
  const InitialCategories: seq<string> := [
    "Electronics", "Vehicles", "Real Estate", "Fashion", "Home & Garden",
    "Sports & Outdoors", "Toys & Games", "Books & Media", "Art & Collectibles",
    "Health & Beauty", "Jewelry & Watches", "Business & Industrial",
    "Music Instruments", "Pets & Animals", "Food & Beverages",
    "Travel & Experiences", "Services", "Antiques", "Digital Goods", "Other"]

  /** One document per initial name; the ids are the fresh ids the driver
      generates for them. */
  function SeedDocs(ids: seq<Id>): (docs: seq<Category>)
    requires |ids| == |InitialCategories|
    ensures |docs| == |InitialCategories|
    ensures forall k :: 0 <= k < |docs| ==> docs[k] == Category(ids[k], InitialCategories[k])
  {
    seq(|InitialCategories|, k requires 0 <= k < |InitialCategories| => Category(ids[k], InitialCategories[k]))
  }

  /** An ordered insertMany: documents are inserted one after another and the
      first one that fails stops the batch, keeping those already inserted. */
  function InsertInOrder(s: State, docs: seq<Category>): State
    decreases |docs|
  {
    if docs == [] then s
    else if !Unused(s, docs[0].id) then s
    else InsertInOrder(s.(categories := s.categories + [docs[0]]), docs[1..])
  }

  /** seedCategories on a database state: insert the initial categories if
      there are none; an insertion error is logged and swallowed. */
  function SeedSpec(s: State, ids: seq<Id>): State
    requires |ids| == |InitialCategories|
  {
    if s.categories != [] then s else InsertInOrder(s, SeedDocs(ids))
  }

  method SeedCategories(db: Database, ids: seq<Id>)
    requires |ids| == |InitialCategories|
    modifies db
    ensures db.Contents() == SeedSpec(old(db.Contents()), ids)
  {
    if |db.categories| != 0 {
      return;
    }
    var docs := SeedDocs(ids);
    var i := 0;
    while i < |docs|
      invariant 0 <= i <= |docs|
      invariant InsertInOrder(db.Contents(), docs[i..]) == SeedSpec(old(db.Contents()), ids)
    {
      var inserted := db.InsertCategory(docs[i]);
      if !inserted {
        return;
      }
      assert docs[i..][1..] == docs[i + 1..];
      i := i + 1;
    }
  }

  /** Inserting in order only appends, and only documents of the batch, in
      batch order. */
  lemma {:induction false} InsertInOrderAppends(s: State, docs: seq<Category>)
    ensures var s' := InsertInOrder(s, docs);
      && s'.auctions == s.auctions && s'.bids == s.bids
      && |s.categories| <= |s'.categories| <= |s.categories| + |docs|
      && s'.categories == s.categories + docs[..|s'.categories| - |s.categories|]
    decreases |docs|
  {
    if docs != [] && Unused(s, docs[0].id) {
      var t := s.(categories := s.categories + [docs[0]]);
      InsertInOrderAppends(t, docs[1..]);
      var s' := InsertInOrder(t, docs[1..]);
      var n := |s'.categories| - |t.categories|;
      assert docs[..n + 1] == [docs[0]] + docs[1..][..n];
    }
  }

  /** When every id is fresh and they are pairwise distinct, the whole batch
      is inserted. */
  lemma {:induction false} InsertInOrderAll(s: State, docs: seq<Category>)
    requires forall k :: 0 <= k < |docs| ==> Unused(s, docs[k].id)
    requires forall i, j :: 0 <= i < j < |docs| ==> docs[i].id != docs[j].id
    ensures InsertInOrder(s, docs) == s.(categories := s.categories + docs)
    decreases |docs|
  {
    if docs != [] {
      var t := s.(categories := s.categories + [docs[0]]);
      forall k | 0 <= k < |docs[1..]| ensures Unused(t, docs[1..][k].id) {
        assert docs[1..][k] == docs[k + 1];
        assert Unused(s, docs[k + 1].id);
      }
      InsertInOrderAll(t, docs[1..]);
      assert t.categories + docs[1..] == s.categories + docs;
    }
  }

  /** If any category exists, seeding changes nothing. */
  lemma SeedKeepsExisting(s: State, ids: seq<Id>)
    requires |ids| == |InitialCategories| && s.categories != []
    ensures SeedSpec(s, ids) == s
  {
  }

  /** Seeding an empty collection with fresh, distinct ids stores exactly one
      category per initial name, in order. */
  lemma SeedFromEmpty(s: State, ids: seq<Id>)
    requires |ids| == |InitialCategories| && s.categories == []
    requires forall k :: 0 <= k < |ids| ==> Unused(s, ids[k])
    requires forall i, j :: 0 <= i < j < |ids| ==> ids[i] != ids[j]
    ensures var s' := SeedSpec(s, ids);
      && s'.auctions == s.auctions && s'.bids == s.bids
      && |s'.categories| == |InitialCategories|
      && (forall k :: 0 <= k < |InitialCategories| ==>
            s'.categories[k].name == InitialCategories[k] && s'.categories[k].id == ids[k])
  {
    InsertInOrderAll(s, SeedDocs(ids));
  }

  /** Seeding twice is seeding once, as soon as the first seed stored
      anything (it always does when the first id is fresh). */
  lemma SeedIdempotent(s: State, ids: seq<Id>, ids2: seq<Id>)
    requires |ids| == |InitialCategories| && |ids2| == |InitialCategories|
    requires s.categories != [] || Unused(s, ids[0])
    ensures SeedSpec(SeedSpec(s, ids), ids2) == SeedSpec(s, ids)
  {
    if s.categories == [] {
      var docs := SeedDocs(ids);
      assert docs[0] == Category(ids[0], InitialCategories[0]);
      var t := s.(categories := [docs[0]]);
      assert s.categories + [docs[0]] == [docs[0]];
      assert InsertInOrder(s, docs) == InsertInOrder(t, docs[1..]);
      InsertInOrderAppends(t, docs[1..]);
    }
  }

  /** The initial names are pairwise distinct. */
  lemma InitialNamesDistinct()
    ensures forall i, j :: 0 <= i < j < |InitialCategories| ==> InitialCategories[i] != InitialCategories[j]
  {
    forall i, j | 0 <= i < j < |InitialCategories|
      ensures InitialCategories[i] != InitialCategories[j]
    {
      assert InitialCategories[i][0] != InitialCategories[j][0] || |InitialCategories[i]| != |InitialCategories[j]|;
    }
  }

  /** After seeding from empty, the category names are unique. */
  lemma SeedNamesUnique(s: State, ids: seq<Id>)
    requires |ids| == |InitialCategories| && s.categories == []
    ensures NamesUnique(SeedSpec(s, ids).categories)
  {
    var docs := SeedDocs(ids);
    InsertInOrderAppends(s, docs);
    InitialNamesDistinct();
    var c := SeedSpec(s, ids).categories;
    assert forall k :: 0 <= k < |c| ==> c[k] == docs[k];
  }
}
