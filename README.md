# Auction marketplace core, modelled in Dafny

This project models the server core of an online auction marketplace. Sellers
list auctions with a starting price and an end date. Buyers place bids, and
each bid must be at least 10% above the current bid. An auction closes when it
is read after its end date, or when the periodic expiry sweep finds it. On
closing, the highest bid (the earliest one among equal amounts) wins if it
exceeds the starting price. The surrounding rules are modelled too:
owner-only editing and deletion, category creation and seeding, the user
schema's field rules, and the id masking used in log lines.

The database is a class `Store.Database` holding the auction, bid and category
collections as sequences in insertion order. `State` is a value snapshot of
those collections. A loaded Mongoose document is the class `Store.AuctionDoc`,
whose fields the handlers change in place before saving.

Each state-changing handler is described twice:
- a function `XSpec(state, inputs) : (response, state')`;
- a method on the database, whose postcondition says that the response and the
  new contents are exactly what `XSpec` gives for the old contents.

The read-only handlers (`GetAuctions`, `GetBidsForAuctionId`, `GetUserAuctions`
and `GetCategories`) are functions of the state only.

The properties the code promises are lemmas about these functions.

`Invariants` states a whole-store invariant and proves that every handler
keeps it. The invariant says:
- auction ids are unique;
- every auction meets its schema;
- an active auction has no winner;
- a recorded winner is the author of the auction's highest bid, and the
  recorded current bid is that bid's amount;
- every auction's bids met the 10% rule when they were admitted.

The same lemmas also prove that a closed auction stays closed, with the same
winner, current bid and bids.

Representation choices:
- Time is an integer clock value, in milliseconds, passed in as `now`.
- Money is an integer number of the currency's smallest unit.
- Fresh ObjectIds are parameters of the operations that create documents.

Modules, one per source file of the core:

| module | file | models |
|---|---|---|
| `Common` | `common.dfy` | ids, time, money, HTTP responses, the `isMongoId` validator and ObjectId casting |
| `BidModel` | `bid.dfy` | models/Bid.js |
| `AuctionModel` | `auction.dfy` | models/Auction.js (record, defaults, validator, ledger queries, closing) |
| `Store` | `store.dfy` | the collections, `findById`, `save`, `findByIdAndDelete`, the loaded document and `closeAuction` |
| `Sequences` | `sequences.dfy` | `.sort`, `.skip`, `.limit` |
| `BidController` | `bid_controller.dfy` | controllers/bidController.js |
| `AuctionController` | `auction_controller.dfy` | controllers/auctionController.js |
| `AuctionRoutes` | `auction_routes.dfy` | the DELETE and GET /user/:id handlers and `maskId` of routes/auctionRoutes.js |
| `CategoryController` | `category.dfy` | controllers/categoryController.js |
| `Seeding` | `seeding.dfy` | `seedCategories` of config/db.js with config/initialData.js |
| `Sweeper` | `sweeper.dfy` | `checkExpiredAuctions` and `handleMissedAuctionsOnStartup` of index.js |
| `UserModel` | `user.dfy` | models/User.js |
| `Invariants` | `invariants.dfy` | the store invariant, and that each handler keeps it |
| `Scenarios` | `scenarios.dfy` | worked bidding sessions through the handler models |

## Model

| member | source | states |
|---|---|---|
| AuctionModel.NewAuction | models/Auction.js:35-50 | a new auction is active, has no winner, a current bid of 0 and an empty bid list; every other field is the one supplied |
| AuctionModel.EndDateValidatorCases | models/Auction.js:16-19 | the end-date validator accepts any date once the auction is closed; for an active auction it accepts exactly the dates strictly after now |
| AuctionModel.Ledger | models/Auction.js:55 | the bids of one auction: exactly the bids of the collection that refer to it, in insertion order |
| AuctionModel.LedgerAppend | controllers/bidController.js:60 | storing a bid extends its own auction's ledger at the end and leaves every other ledger as it was |
| AuctionModel.MaxAmount | models/Auction.js:55-57 | the result is the amount of some bid of the list, and no bid of the list has a larger amount |
| AuctionModel.CurrentBid | models/Auction.js:53-59 | getCurrentBid is the starting price when the auction has no bids; otherwise it is the amount of one of its bids, and none of its bids is higher |
| AuctionModel.Best | models/Auction.js:66-69 | the aggregation's first result is None exactly for no bids; otherwise it is a bid of the highest amount, with the earliest timestamp among bids of that amount |
| AuctionModel.WinningBid | models/Auction.js:62-82 | getWinningBid is null exactly when the auction has no bids; otherwise it is one of the auction's bids |
| AuctionModel.WinningAmountIsCurrent | models/Auction.js:53-82 | the winning bid's amount equals getCurrentBid() |
| AuctionModel.CloseOutcome | models/Auction.js:87-105 | closing gives status closed. A closed auction is returned unchanged. An active one gets endDate = now and no other field changes except winner and currentBid. Those become the winning bid's user and getCurrentBid() exactly when there is a bid above the starting price, and are kept otherwise |
| AuctionModel.CloseIdempotent | models/Auction.js:88 | closing twice is closing once, whatever the clock says the second time |
| AuctionModel.WinnerIsHighestBidder | models/Auction.js:92-95 | a recorded winner placed a bid on the auction of exactly the recorded amount; that amount is above the starting price, and no bid on the auction is higher |
| AuctionModel.AdmittedFirst | controllers/bidController.js:43-50 | in a ledger built by the admission rule, the first bid is at least 1.10 times the starting price |
| AuctionModel.AdmittedMargin | controllers/bidController.js:43-50 | in a ledger built by the admission rule, every bid is at least 1.10 times the bid before it |
| AuctionModel.AdmittedStrictlyIncreasing | controllers/bidController.js:43-50 | with a positive starting price, admitted amounts are above it and strictly increase |
| AuctionModel.AdmittedLatestIsHighest | controllers/bidController.js:43-58 | with a non-negative starting price, the latest admitted bid holds the highest amount |
| BidModel.NewBid | models/Bid.js:3-28 | a new bid carries the given auction, user and amount, and its timestamp defaults to the creation time |
| Common.CastableIdsPassValidation | controllers/bidController.js:9 | every string that can be cast to an ObjectId passes isMongoId |
| Common.PrefixedIdPassesValidationOnly | controllers/bidController.js:9-29 | "0x" followed by 22 hex digits passes isMongoId yet cannot be cast, so findById throws |
| Store.FindAuction | controllers/bidController.js:25 | the position of the first auction with the id, or None when no auction has it |
| Store.LookupAuction | controllers/bidController.js:25-29 | findById fails to cast exactly the strings that are not ObjectIds; otherwise it finds an auction with that id, or reports that none has it |
| Store.ReplaceAtFound | models/Auction.js:101-104 | save() of a document loaded by id overwrites the stored document at the position where it was found |
| Store.ReplaceAtIndex | models/Auction.js:101-104 | with distinct ids, saving overwrites the document at the position of its id |
| Store.RemovalContents | routes/auctionRoutes.js:203 | with distinct ids, deleting a position leaves exactly the auctions with other ids |
| Store.Database.InsertAuction | controllers/auctionController.js:62 | an auction under a fresh id is appended; a taken id is refused and nothing changes |
| Store.Database.InsertBid | controllers/bidController.js:60 | a bid under a fresh id is appended; a taken id is refused and nothing changes |
| Store.Database.InsertCategory | controllers/categoryController.js:28 | a category under a fresh id is appended; a taken id is refused and nothing changes |
| Store.Database.WriteAuction | models/Auction.js:101-104 | the stored document with the record's id is overwritten; nothing else changes |
| Store.Database.DeleteAuctionAt | routes/auctionRoutes.js:203 | the auction at the position is removed; nothing else changes |
| Store.AuctionDoc.Hydrate | controllers/auctionController.js:141 | the loaded document holds exactly the stored record |
| Store.AuctionDoc.Save | controllers/auctionController.js:166 | a document that passes full validation overwrites the stored one; one that fails leaves the database unchanged |
| Store.AuctionDoc.CloseAuction | models/Auction.js:87-105 | the document's fields become the closed value of the old record. The database is untouched for an already-closed auction; otherwise the stored document is overwritten with it |
| Sequences.InsertBy | controllers/auctionController.js:83 | inserting adds exactly one occurrence of the element |
| Sequences.InsertBySorted | controllers/auctionController.js:83 | inserting into a sorted sequence keeps it sorted |
| Sequences.SortBy | controllers/auctionController.js:83 | the result is sorted by the key and is a permutation of the input |
| Sequences.Window | controllers/auctionController.js:84-85 | skip-then-limit returns at most n elements, the ones from position skip on, exactly n when that many are there, and all that remain from skip on when fewer are |
| Sequences.WindowSorted | controllers/auctionController.js:83-85 | a window of a sorted sequence is sorted |
| BidController.RequestErrors | controllers/bidController.js:9-17 | the request validators report no error exactly when the auction id passes isMongoId and the amount is non-negative |
| BidController.CreateBid | controllers/bidController.js:7-76 | the response and the new database contents are those of the createBid specification |
| BidController.AdmittedIff | controllers/bidController.js:25-63 | a bid is created exactly when the request is well-formed, the auction exists and is active, the caller is not its seller, the amount is at least 1.10 times the current bid, the bid id is fresh, and the auction passes its schema |
| BidController.ChecksRunInOrder | controllers/bidController.js:14-50 | the first failing check decides the answer: validation, cast, 404, closed, own auction, then the minimum bid |
| BidController.RejectionsChangeNothing | controllers/bidController.js:25-74 | a rejected request never changes the auctions or categories. Every rejection except the auction's failed save leaves the database as it was; that one leaves the new bid stored |
| BidController.SuccessAppendsOneBid | controllers/bidController.js:52-63 | on success exactly one bid, the caller's, of the given amount and stamped now, is appended to the collection, and its id to the end of the auction's list. No other auction, and no other field of that auction, changes |
| BidController.AdmittedBidTopsLedger | controllers/bidController.js:43-50 | an admitted amount is at least the current bid and every earlier bid on the auction, and strictly above a positive current bid |
| BidController.AdmissionImpliesDeclaredRule | models/Bid.js:19-26 | when the current bid is positive, the controller's rule implies the amount rule the Bid schema declares |
| BidController.ZeroBidBreaksDeclaredRule | models/Bid.js:24 | with a starting price of 0, a bid of 0 is admitted although it does not exceed the current bid |
| BidController.GetBidsForAuctionId | controllers/bidController.js:79-89 | exactly the auction's bids, as a permutation of its ledger, newest timestamp first; a string that is not an ObjectId is a 500 |
| AuctionController.CreateAuction | controllers/auctionController.js:7-72 | the response and the new contents are those of the createAuction specification |
| AuctionController.CreateErrorsIff | controllers/auctionController.js:9-39 | the validators report nothing exactly when the title is non-empty, the price is non-negative, the end date parses and is after now, and the category is an ObjectId of a stored category. Each broken rule has its message; a category that is not an ObjectId reports the cast error's message, and one that is an ObjectId of no category reports "Category not found" |
| AuctionController.CreateAuctionOutcome | controllers/auctionController.js:35-63 | an invalid request is a 400 and stores nothing. A valid one with a fresh id appends one auction: the caller is its seller, it has the given fields, it is active, with no bids, no winner and current bid 0, and it meets its schema. Anything else stores nothing |
| AuctionController.ParamOr | controllers/auctionController.js:77-78 | parseInt(param) or the fallback is the parameter when it is a non-zero number, and the fallback when it is missing, not a number or 0 |
| AuctionController.GetAuctionsDefaults | controllers/auctionController.js:77-85 | a missing, zero or non-numeric page is 1 and limit is 10; with both defaults the listing is the first ten auctions by end date, or all of them when there are fewer |
| AuctionController.GetAuctionsWindow | controllers/auctionController.js:77-94 | the query fails exactly when (page-1)*limit is negative. Otherwise the listing reports page, limit and the total count, and holds at most \|limit\| auctions: those from position (page-1)*limit on, in the collection sorted by end date |
| AuctionController.GetAuctionsSorted | controllers/auctionController.js:83 | the listed auctions come in ascending order of end date |
| AuctionController.GetAuctionById | controllers/auctionController.js:104-132 | the response and the new contents are those of the getAuctionById specification |
| AuctionController.GetAuctionByIdOutcome | controllers/auctionController.js:115-125 | an unknown id is a 404. Reading an expired active auction closes it (closed, endDate now), stores and returns the closed auction. Any other read returns the stored auction and changes nothing |
| AuctionController.UpdateAuction | controllers/auctionController.js:135-172 | the response and the new contents are those of the updateAuction specification |
| AuctionController.UpdateChecksInOrder | controllers/auctionController.js:141-164 | 404 for an unknown id, then 403 for anyone but the seller, then 400 once a bid is listed, then 400 for an end date not after now (the stored one when the new one is absent or unparseable), then 500 for an unparseable end date; every rejection leaves the database unchanged |
| AuctionController.UpdateSuccess | controllers/auctionController.js:157-167 | a successful edit is by the seller, of an auction with no bids, and leaves the end date after now. Empty fields keep their old values, only title, description and end date change, and the edited auction is stored in place |
| AuctionRoutes.DeleteAuction | routes/auctionRoutes.js:180-213 | the response and the new contents are those of the DELETE specification |
| AuctionRoutes.DeleteRejections | routes/auctionRoutes.js:189-200 | a 404 exactly when no auction has the id, a 403 exactly when the first auction with the id has another seller; every rejection leaves the database unchanged |
| AuctionRoutes.DeleteRemovesExactlyThat | routes/auctionRoutes.js:203-205 | the seller's delete removes exactly the auction with that id, whatever its status or bids, and keeps ids unique. Every bid and category stays, and the id is afterwards unknown |
| AuctionRoutes.BySeller | routes/auctionRoutes.js:142 | exactly the auctions of the seller |
| AuctionRoutes.GetUserAuctions | routes/auctionRoutes.js:140-155 | a 500 exactly for a string that is not an ObjectId. The message object exactly when the seller has no auctions. Otherwise a non-empty permutation of the seller's auctions, latest end date first |
| AuctionRoutes.JsSubstring | routes/auctionRoutes.js:263 | substring clamps both indices to the string and swaps them when the start is after the end |
| AuctionRoutes.MaskId | routes/auctionRoutes.js:261-264 | "[INVALID_ID]" for a missing, empty or non-string value. The first four characters, "..." and the last four (11 characters) for a string of length 4 or more. The string, "..." and the string again for a shorter one |
| AuctionRoutes.MaskIdHidesTheMiddle | routes/auctionRoutes.js:263 | for a string of 8 characters or more, the mask shows only its first four and last four characters |
| CategoryController.FindByName | controllers/categoryController.js:21 | a category is found exactly when one carries the name, and it is one of those |
| CategoryController.CreateCategory | controllers/categoryController.js:6-35 | the response and the new contents are those of the createCategory specification |
| CategoryController.CreateCategoryOutcome | controllers/categoryController.js:8-30 | an empty name is a 400 with the validation message, a taken name a 400 "already exists"; a category is created exactly when the name is non-empty and new, and then only it is appended; rejections change nothing |
| CategoryController.CreateCategoryKeepsNamesUnique | controllers/categoryController.js:21-30 | creation keeps category names unique; the new name is held only by the new category |
| CategoryController.GetCategories | controllers/categoryController.js:38-45 | every stored category, and nothing else |
| CategoryController.CreatedCategoryIsListed | controllers/categoryController.js:27-41 | after a successful creation the listing is the old listing with the new category, of the given name, appended; after a refused one the listing is unchanged |
| Seeding.SeedDocs | config/db.js:54 | one document per initial name, in list order |
| Seeding.SeedCategories | config/db.js:48-63 | the new contents are those of the seeding specification |
| Seeding.InsertInOrderAppends | config/db.js:55 | an ordered insertMany only appends a prefix of the batch, in batch order, and touches no other collection |
| Seeding.InsertInOrderAll | config/db.js:55 | with fresh, distinct ids the whole batch is appended |
| Seeding.SeedKeepsExisting | config/db.js:57-59 | if any category exists, seeding changes nothing |
| Seeding.SeedFromEmpty | config/db.js:52-56 | seeding an empty collection with fresh distinct ids stores one category per initial name, in order, and nothing else |
| Seeding.SeedIdempotent | config/db.js:50-59 | seeding twice is seeding once |
| Seeding.InitialNamesDistinct | config/initialData.js:2-23 | the twenty initial names are pairwise distinct |
| Seeding.SeedNamesUnique | config/db.js:52-56 | after seeding from empty, category names are unique |
| Sweeper.ExpiredIndices | index.js:40-43 | the query finds exactly the positions of the active auctions whose end date is at or before now, in increasing order |
| Sweeper.Cutoff | index.js:45-51 | the position where the loop stops: no close before it fails, and it is an expired auction whose close fails (or the end) |
| Sweeper.ClosedBelow | index.js:45-48 | closing in place keeps the number of auctions and each position's id |
| Sweeper.SweepStep | index.js:45-46 | closing the next auction of the batch extends the closed region to the following one |
| Sweeper.SweepEnd | index.js:45-51 | where the loop ends is the cutoff |
| Sweeper.CheckExpiredAuctions | index.js:37-52 | the loop of closes leaves the database as the sweep specification says |
| Sweeper.HandleMissedAuctionsOnStartup | index.js:57-65 | the startup check is one sweep |
| Sweeper.SweepLeavesOthers | index.js:40-46 | auctions that are not expired, including every closed one, are unchanged, as are bids and categories |
| Sweeper.SweepStopsAtFirstFailure | index.js:38-51 | expired auctions before the first failing close are closed as closeAuction closes them. That auction and every one after it stay as they were, and the failing one stays active and expired |
| Sweeper.SweepClosesEveryExpired | index.js:45-48 | when no close fails, no auction is left active past its end date, and each expired one is closed as closeAuction closes it |
| Sweeper.SweepIdempotent | index.js:37-52 | sweeping twice at the same time, with the same failing closes, is sweeping once |
| Sweeper.SweepSettles | index.js:45-48 | after a sweep with no failure, another sweep at the same time changes nothing, whichever closes would fail |
| UserModel.ParseRole | models/User.js:16-20 | a missing role is buyer; a given role is accepted exactly when it is buyer, seller or admin |
| UserModel.EmailMatchesIff | models/User.js:9 | the email pattern holds exactly when the string has no whitespace and has an "@" after at least one character, followed after at least one character by a "." and at least one character |
| UserModel.EmailExamples | models/User.js:9 | "a@b.c" matches; a missing part, a missing dot or a space each break the pattern |
| UserModel.ValidateUserIff | models/User.js:3-21 | a user passes validation exactly when the name is non-empty, the email matches, the password has at least 6 characters and the role is allowed; each broken rule reports its error |
| UserModel.SaveUserKeepsUsersValid | models/User.js:3-21 | saving keeps every stored user valid and emails unique. A duplicate email is refused exactly when the document is otherwise valid; a saved user carries the submitted fields, buyer by default |
| Invariants.WinnerIsTheHighestBid | models/Auction.js:92-95 | in a store meeting the invariant, an auction with a winner is closed. Its current bid is getCurrentBid(), above the starting price, equal to a bid of the winner, and at least every bid on it |
| Invariants.LedgerMargins | controllers/bidController.js:43-61 | in a store meeting the invariant, each auction's first bid is at least 1.10 times the starting price and every later bid at least 1.10 times the one before |
| Invariants.CloseKeepsValid | models/Auction.js:87-105 | closing keeps an auction valid and leaves a closed one as it is |
| Invariants.CreateAuctionKeepsInvariant | controllers/auctionController.js:53-63 | createAuction keeps the invariant, and every closed auction stays closed with its outcome |
| Invariants.CreateBidKeepsInvariant | controllers/bidController.js:25-63 | createBid keeps the invariant, and every closed auction stays closed with its outcome and bids |
| Invariants.GetAuctionByIdKeepsInvariant | controllers/auctionController.js:115-125 | the lazy close keeps the invariant, and every closed auction stays closed with its outcome |
| Invariants.UpdateKeepsInvariant | controllers/auctionController.js:141-167 | updateAuction keeps the invariant, and every closed auction stays closed with its outcome |
| Invariants.DeleteKeepsInvariant | routes/auctionRoutes.js:189-205 | DELETE keeps the invariant, and every closed auction still stored stays closed with its outcome |
| Invariants.CreateCategoryKeepsInvariant | controllers/categoryController.js:21-30 | createCategory keeps the invariant and changes no auction |
| Invariants.SeedKeepsInvariant | config/db.js:48-63 | seeding keeps the invariant and changes no auction |
| Invariants.SweepKeepsInvariant | index.js:37-52 | the sweep keeps the invariant, and every closed auction stays closed with its outcome |
| Scenarios.SessionStep1 | controllers/bidController.js:43-50 | at a starting price of 100, a bid of 100 is refused with a minimum of 1.10 × 100 |
| Scenarios.SessionStep2 | controllers/bidController.js:43-63 | at a starting price of 100, a bid of 110 (exactly 1.10 × 100) is admitted and stored |
| Scenarios.SessionStep3 | controllers/bidController.js:43-50 | after 110, a bid of 115 is refused against a current bid of 110 |
| Scenarios.SessionStep4 | controllers/bidController.js:43-63 | after 110, a bid of 121 is admitted and becomes the current bid |
| Scenarios.TenPercentSession | controllers/bidController.js:43-63 | the four steps in sequence: 100 refused, 110 admitted, 115 refused, 121 admitted and current |
| Scenarios.LateBidWinsOnRead | controllers/bidController.js:58-69 | a bid on an active auction past its end date is answered 400 with the auction's validation message, yet stored; the next read closes the auction with that bidder as the winner |
| Scenarios.SellerCannotBid | controllers/bidController.js:39-41 | the seller's own bid is refused with 403, for any non-negative amount |

## Left out

- The React client, the auth and user routes, JWT verification and bcrypt. The caller's id is an input of each handler.
- Concurrency: requests and sweeps run one after another on one store. The `setInterval` cadence of the sweep (index.js:68) is not modelled, and neither is the race between `getCurrentBid` and the saves in createBid.
- Floating point: money is an exact integer and the 10% rule is `10 * amount >= 11 * current`. In JavaScript, `100 * 1.10` is `110.00000000000001`, so the source refuses a bid of exactly 110 that the model admits.
- The text of "Minimum bid is …" (`toFixed(2)`) is not reproduced; `BelowMinimum` carries the current bid instead.
- Dates: time is an integer, and every request or sweep sees one fixed `now`. Parsing of date strings is reduced to the three outcomes absent, unparseable and a time. The ISO-normalising middleware (index.js:22-27) is not modelled. It throws on an unparseable end date, so the running app answers such a request with Express's default 500 before any handler runs. The model gives each handler's own answer: 400 "Invalid date format" on creation; on update, the stored end date is kept, which gives 400 when it has passed and a failing save (500) otherwise.
- `populate`, and the `$lookup`/`$unwind` join of getWinningBid: the model returns the winning bid even when its user has been deleted, where the join would drop it.
- AuctionController.CategoryCastMessage: the text of Mongoose's CastError is written in the form of current Mongoose releases; other releases word it differently.
- ObjectId casting is reduced to "24 hex digits". An id that cannot be cast makes a query fail with a 500.
- The id generator is not modelled: fresh ObjectIds are parameters, and an id already in use is answered as a duplicate-key error.
- `validateModifiedOnly`: closing validates only changed fields. Model reason: since the endDate validator accepts any date once the status is closed, closing always saves.
- models/Category.js is not part of this model; a category is an id and a name.
- String lengths are counted in characters, not in UTF-16 code units.
- Sweeper.CheckExpiredAuctions: requires distinct auction ids, which the database's `_id` index guarantees, because a save writes by id.
- Sweeper.HandleMissedAuctionsOnStartup: requires distinct auction ids for the same reason.
- The sweep stops at the first close that fails, because the `try` wraps the whole loop. The expired auctions after it stay as they were until the next sweep.
- createBid does not close an expired auction lazily; the model follows the code, so such an auction accepts bids until a read or a sweep closes it.
- Sequences.SortBy: states sortedness and permutation only. The database's order among equal keys is unspecified; the insertion sort that stands for it is stable.
- The amount rule declared in models/Bid.js is a predicate, not an enforced check, because the schema declares it under an option name that Mongoose does not run. `BidController.ZeroBidBreaksDeclaredRule` shows an admitted bid that breaks it.
- Plumbing: logging, swagger, CORS, `connectDB`, and the route tables.
