# KeebHub: verified model

A Dafny model of the parts of the KeebHub backend whose correctness is an argument rather than a
glance: cursor pagination, the SSE broker, chat persistence and catch-up, handle allocation, literal
search by escaping, and login sessions. Check everything with `dafny verify dfyconfig.toml`.

## What is modelled

| file | what it holds |
|---|---|
| `Keyset.dfy` | pagination over any strict order: sort, take `limit + 1`, cut, resume strictly after the cursor; walks over a fixed and over a changing table |
| `Listings.dfy` | the listings table and its three writes, as specification functions and as the class `CatalogService` |
| `ListingRules.dfy` | when each write succeeds, why it is refused, and the row it stores, field by field |
| `Paging.dfy` | the five listing orders (three search sorts, owned, seller catalogue): option checks, cursor encoding and decoding, WHERE, ORDER BY and resume predicates as the code writes them |
| `Walks.dfy`, `Turns.dfy`, `PriceWalk.dfy` | a client following next cursors while sellers write; exactly what it shows, misses and repeats |
| `Services.dfy` | the three listing services: trimming, handle resolution and refusals, and the walks they serve |
| `Answers.dfy` | what a finished search, owned-listings walk or seller catalogue has shown, row by row from the columns; which options are refused |
| `Like.dfy` | `escapeILIKE`, LIKE matching with backslash escapes, substring search |
| `BrokerModel.dfy`, `Broker.dfy` | the broker as a state machine, and the classes `Subscriber` and `Broker` proved to implement it |
| `ChatModel.dfy`, `ChatProperties.dfy` | conversations, messages, read pointers, unread counts, over every run of calls |
| `ChatHistory.dfy` | message pages, the in-place reverse, walks that rebuild a history |
| `Inbox.dfy`, `InboxWalks.dfy`, `InboxTurns.dfy`, `InboxJumps.dfy` | the inbox query and its cursor, walked over a fixed state and while messages arrive; exactly what a walk lists and repeats, with two concrete runs |
| `Messaging.dfy` | the classes `ChatStore` (with the send transaction and its rollback) and `ChatService` (publish after commit) |
| `Realtime.dfy`, `Delivery.dfy`, `CatchUp.dfy` | listings, chat and broker running together: what streams may say, what an open stream cannot miss, how reads repair losses |
| `Handles.dfy` | handle normalisation, the persisted grammar, collision suffixes |
| `Accounts.dfy`, `Logins.dfy`, `AuthStore.dfy` | users and sessions under transactions in any order, the retry loop, the class `AuthStore` |
| `Base64Url.dfy`, `AuthService.dfy` | the token text, and the class `AuthService` |
| `Text.dfy`, `Sets.dfy`, `Wrappers.dfy` | trimming, replacing, a fact about sets, `Option` and `Result` |

Where the code changes things step by step, a class does the same on its own fields and its methods
are proved equal to a specification function of the old state; the lemmas are then about those
functions. `OfferLocked` (the body of the publish loop) and `BuildHandle` (the character loop) are
methods of their own only to keep the proofs small.

## Assumptions

- A catalogue or chat service call is one atomic step, except that sending is two: the commit, and
  the later broker call, with anything in between (`Realtime`). `UpdateListing` and
  `ChangeListingStatus` read and then write without re-checking; interleavings inside them are not
  modelled. Login is modelled at the level of its transactions, and other transactions may commit
  between attempts and between the lookup and the writes of one attempt.
- A failed commit has stored nothing; were a commit to take effect and still report an error, its message
  would have no event.
- Message identifiers become visible in identifier order. Without this, reading after the greatest
  identifier on screen would not be a complete catch-up.
- `SELECT ... WHERE ... ORDER BY ... LIMIT` is filter, sort, take; sorted order is a specification
  (ghost) function, because SQL does not say how it sorts.
- ILIKE folds case one character at a time, by a parameter that leaves `%`, `_` and `\` alone;
  lower-casing a user name is per character too.
- Disabling a user is an operator's write outside this code; it appears as one more transaction.
- User text is valid UTF-8, so the JSON text of a next cursor reads back as the record it was written from.
- Timestamps are integers; a cursor is the record its JSON text holds, or unreadable. Token hashes
  are opaque values and SHA-256 is a parameter.
- Joins that foreign keys make total (categories, listing owners, inbox counterparts) are dropped; a
  category is its slug. `lower(handle)` is the handle, since stored handles are lower-case.
- A free-text value outside an enumeration is its constructor `Other...`; the field errors of a
  refused request are the set of fields, without their wording.

## Results that may surprise

- A price-sorted walk can show a listing twice (`PriceWalk.PriceWalkCanRepeat` gives the run), and so can
  any walk whose sort columns are written to. For all five orders and any writes between the pages,
  `Turns.RepeatsExactlyWhenReshown` says exactly when: a listing already on screen lies behind the cursor
  again at some fetch, with fewer matching rows before it than the page holds. The same condition decides
  what is shown at all (`Turns.ShownExactlyWhenItsTurnComes`).
- `after_id` must be positive, so reading forwards cannot rebuild a history that contains message 1
  (`ChatHistory.FirstMessageIsOutOfForwardReach`); it rebuilds the whole history exactly when every
  message has a greater identifier than its starting point (`ChatHistory.ForwardWalkIsWholeHistory`).
  Catch-up therefore reads forwards from what is on screen and backwards to the beginning.
- `last_message_at` is overwritten, never maximised. It still is always the time of the newest message
  (`ChatProperties.EveryRunActivityIsLatest`), but a message dated before the last activity can make an
  inbox walk list a conversation twice (`InboxJumps.InboxWalkCanRepeat`), and a message to a conversation
  still to come can make a finished walk miss it (`InboxJumps.InboxWalkCanMiss`). Exactly when is
  `InboxTurns.RepeatsExactlyWhenRelisted` and `InboxTurns.ListedExactlyWhenItsTurnComes`.
- The first handle candidate can equal a later one, exactly for bases of length 39 or 40 that already
  end in that suffix and have no second hyphen before it (`Handles.FirstAttemptCoincides`). A login that
  gives up still proves 999 taken handles, even when its last attempt lost a race for the Discord user.
- An owned-listings cursor is bound to its status filter but not to the seller
  (`Paging.CursorAcceptedExactly`); the query itself still returns only the caller's rows.

## Model

| member | source | states |
|---|---|---|
| Keyset.AscendingIsUnique | db/queries/catalog.sql:243-283 | an ORDER BY over a strict order has one result: two ascending listings of the same rows are equal |
| Keyset.PageSplitsRemaining | internal/app/catalog.go:558-583 | a page cut from `limit + 1` fetched rows is the first `limit` remaining rows; it has a cursor exactly when more remain, and resuming there leaves exactly the rest |
| Keyset.WalkIsAscending | internal/app/catalog.go:300-325 | whatever the table does between requests, the rows of a walk come out in strictly ascending key order and the cursor is the key of the last row shown |
| Keyset.WalkMissesNothingStable | internal/app/catalog.go:300-325 | a sort position occupied at every request is already shown or still ahead of the cursor, so a finished walk has shown it |
| Keyset.FixedWalkContinues | internal/app/catalog.go:300-325 | over a fixed table a walk shows what remains, in order, each row once, for any changing limits; what remains shrinks with every request, so it ends |
| Listings.WriteEvolves | db/queries/catalog.sql:94-166 | no create, edit or status change deletes a listing, changes its id, seller or creation time; any change is stamped with the write time; a new row gets the next id; prices stay in bounds |
| ListingRules.DraftErrorsAre | internal/app/catalog.go:327-340 | the fields a refused draft is told about are exactly those out of bounds: title 1 to 120 and category 1 to 50 characters once trimmed, description up to 5000, price 1 to 10,000,000,000, quantity 1 to 1,000,000, condition new or used |
| ListingRules.CreateStoresDraft | internal/app/catalog.go:158-182 | a create succeeds if and only if every field is within its bounds and the trimmed category is known; it then adds one row, the caller's, active, visible, stamped now, with the trimmed title and category and every other field as sent; a refusal changes nothing |
| ListingRules.UpdateIsRefusedInOrder | internal/app/catalog.go:184-231 | each refusal of an edit in the order of the checks (nothing mentioned, fields out of bounds, missing or removed, not the owner, unknown category, a clock before the creation time), and success exactly when none applies |
| ListingRules.UpdateStoresEdit | internal/app/catalog.go:184-231 | an accepted edit changes one row: each mentioned field becomes what was sent, title and category trimmed, the timestamp becomes now, and every other column stays |
| ListingRules.StatusChangeFollowsTransitions | internal/app/catalog.go:233-257 | each refusal of a status change in order, and success exactly when none applies: anything may be reactivated or archived, only an active listing reserved, only an active or reserved one sold; the status and the timestamp change and nothing else; an equal status changes nothing |
| Listings.CatalogService.Create | internal/app/catalog.go:158-182 | the stored table and the result or field errors are those of the create specification, which ListingRules.CreateStoresDraft fixes field by field |
| Listings.CatalogService.Update | internal/app/catalog.go:184-231 | the same for an edit, with its refusals in the code's order |
| Listings.CatalogService.ChangeStatus | internal/app/catalog.go:233-257 | the same for a status change, including the no-op on an equal status |
| Paging.SearchTextIsSubstring | db/queries/catalog.sql:268-273 | the text condition of a search holds exactly when the title or the description contains the query up to case folding |
| Paging.OrderClausesMatchKeys | db/queries/catalog.sql:243-367 | for all five orders, ORDER BY returns one row before another exactly when its key precedes |
| Paging.ResumePredicatesMatchKeys | db/queries/catalog.sql:226-241 | for all five orders, the resume predicate of an accepted cursor (for the seller catalogue the three-way OR) is exactly "strictly after" in the ORDER BY |
| Paging.RanksAgree | internal/app/seller.go:225-263 | on every row the status filter lets through, the rank the service writes equals the query's CASE expression and is a rank the decoder accepts |
| Paging.CursorAcceptedExactly | internal/app/catalog.go:522-583 | a next cursor is accepted exactly by requests of the same kind with equal normalised filters, sort, status and seller, the limit being free, and decodes to the last row's key; a cursor of another kind is refused |
| Paging.AcceptedCursorsAreOwn | internal/app/catalog.go:457-583 | a request accepts a cursor if and only if there is none or it reads like one that a page of the same query could carry: another version, kind, filter, sort, seller, a non-positive id, a missing column or a price out of bounds is refused |
| Paging.RowsHaveDistinctKeys | db/queries/catalog.sql:202-241 | no two stored rows share a sort position in any of the orders |
| Walks.ListPageIsPageAt | internal/app/seller.go:126-161 | a request with acceptable options and its own cursor is answered with exactly one keyset page, and its next cursor stands for the page's cut |
| Walks.RunIsWalk | internal/app/catalog.go:259-325 | a client's whole session, with writes and refused requests in between, is the keyset walk over the tables its requests saw |
| Walks.SessionWritesTable | internal/app/catalog.go:158-325 | a session leaves the table that its writes alone leave: no page request changes a row |
| Walks.AnswerIsSorted | db/queries/catalog.sql:202-241 | the reference answer holds exactly the stored rows the WHERE lets through, in the order the ORDER BY states (Answers says from the columns which rows and which order these are) |
| Answers.SearchIsRefusedInOrder | internal/app/catalog.go:382-431 | a search is refused for a limit outside 0..100, then for its fields, then for its cursor, which no request without a cursor is |
| Answers.SearchIsAcceptable | internal/app/catalog.go:392-431 | the fields are acceptable if and only if the trimmed query has at most 100 characters, the condition is new or used if given, the prices given are from 1 to 10,000,000,000 and not crossed, and the sort is a known one or absent |
| Answers.SearchShowsExactly | db/queries/catalog.sql:243-367 | a finished served search over unchanging listings has shown a listing if and only if it is stored, visible, active or reserved, of the condition and trimmed category given, within whichever price bounds are given, and has the trimmed query in its title or description; each once, newest, cheapest or dearest first as asked, newest by default |
| Answers.OwnedShowsExactly | db/queries/catalog.sql:168-200 | a finished walk over the caller's listings has shown exactly the visible rows with that seller, of the status asked for if any, each once, latest edit first |
| Answers.CatalogueIsRefusedInOrder | internal/app/seller.go:126-161 | the refusals of a seller catalogue in order: malformed handle, limit, category, status, unknown handle, cursor; nothing else is refused |
| Answers.CatalogueShowsExactly | db/queries/catalog.sql:202-241 | a finished catalogue walk has shown exactly the visible listings of the user stored under the handle asked for, of the status asked for (active or reserved if none) and the category asked for, each once, active before reserved before others and latest edit first |
| Answers.FirstPageIs | internal/app/catalog.go:382-390 | without a cursor a page is the first 20 listings of the answer, or as many as the request says, and carries a cursor exactly when there are more |
| Walks.FixedTableWalk | internal/app/catalog.go:300-325 | for a fixed table, any of the five orders, any acceptable filters and any limits in 0..100 changing from page to page, following the cursor until it is absent yields the answer, each listing once, and the cursor becomes absent |
| Walks.NoListingTwice | internal/app/catalog.go:259-325 | with any writes between the pages, a walk shows no listing twice if no write moves a shown listing forward in its order |
| Walks.NewestWalk | db/queries/catalog.sql:243-283 | a `newest` walk never shows a listing twice across any writes, and once finished has shown every listing that matched at every fetch |
| Walks.OwnedWalkNeverRepeats | db/queries/catalog.sql:168-200 | an owned-listings walk never repeats if write timestamps never go backwards |
| Walks.NothingMissed | internal/app/catalog.go:259-325 | in any order, a listing that matches at every request without changing its sort position is shown by every finished walk |
| Walks.RepeatsExactlyWhenRelapsed | db/queries/catalog.sql:285-367 | left to finish without further writes, an unfinished walk repeats a listing if and only if some shown listing matches and lies behind the cursor again (with further writes: Turns.RepeatsExactlyWhenReshown) |
| Keyset.PageListsExactly | internal/app/catalog.go:558-583 | a page lists a row if and only if the row is after the cursor and fewer rows than the limit come between |
| Keyset.StepRepeatsExactly | internal/app/catalog.go:300-325 | one more page keeps a listing free of repeats if and only if no row already shown has its turn on it |
| Turns.RepeatsExactlyWhenReshown | db/queries/catalog.sql:168-367 | for all five orders and any run of writes and fetches, a walk is free of repeats if and only if at no fetch a listing on screen matches, lies behind the cursor and has fewer matching rows before it than the page holds |
| Turns.ShownExactlyWhenItsTurnComes | db/queries/catalog.sql:168-367 | for the same runs, a listing is shown if and only if it was on screen or at some fetch matches, lies behind the cursor and has fewer matching rows before it than the page holds |
| Turns.SkippedMeansPassed | internal/app/catalog.go:259-325 | a listing matching at every fetch that a finished walk does not show lay at or before the cursor at some fetch |
| Turns.WalkIsDecidedByTurns | internal/app/catalog.go:259-325 | both equivalences for a walk from the first page |
| ListingServices.ServeIsListPage | internal/app/catalog.go:300-325 | each of the three services answers exactly as the request it normalises and resolves to, refusals included |
| ListingServices.UnresolvedIsRefused | internal/app/seller.go:126-150 | a malformed handle is unknown before anything is looked at, an unregistered one only after the options passed |
| ListingServices.HandleResolvesForever | db/queries/auth.sql:59-74 | whatever transactions happen on users, a handle keeps naming the same seller |
| ListingServices.ServedRunIsRun | internal/app/seller.go:126-161 | a client of any service, with listings and users changing in between, walks exactly as its resolved request |
| ListingServices.SiteRunsTransactions | internal/app/seller.go:126-161 | a run of pages, listing writes and user transactions leaves the users that the transactions alone leave |
| ListingServices.ServedFixedWalk | internal/app/seller.go:126-161 | searching, listing one's own, or browsing a seller by handle over unchanging listings yields every match once, in order, and ends |
| ListingServices.ServedWalkIsDecidedByTurns | internal/app/catalog.go:259-325 | with writes in between, what a service's client sees and whether it repeats is decided fetch by fetch |
| ListingServices.ServedCursorIsAccepted | internal/app/catalog.go:457-583 | a served next cursor is accepted by another call if and only if it asks the same normalised query of the same service; the limit, and for one's own listings the caller, are free |
| PriceWalk.PriceWalkCanRepeat | db/queries/catalog.sql:285-325 | a concrete run in which a price rise makes a price-sorted walk show one listing twice |
| Like.EscapePassesAreOnePass | internal/app/catalog.go:440-444 | the three successive replace passes put exactly one backslash before each backslash, percent and underscore |
| Like.EscapedMatchesLiterally | internal/app/catalog.go:440-444 | an escaped text as a LIKE pattern matches exactly the texts it is a prefix of, followed by what the rest of the pattern matches |
| Like.SearchIsSubstring | db/queries/catalog.sql:268-273 | `%` + escaped query + `%` is a well-formed pattern and matches a text exactly when the query is a contiguous part of it up to case folding |
| BrokerModel.EveryRunDeliversInOrder | internal/adapter/sse/broker.go:48-127 | in every run of subscribe, publish, receive, unsubscribe and close, each subscription has been given a contiguous prefix, in publish order, of the events addressed to its user since it subscribed, each once; all of them while it is open |
| BrokerModel.LostExactlyWhenEnded | internal/adapter/sse/broker.go:78-143 | over any run an open subscription is lost if and only if it was unsubscribed, the broker was closed, or an addressed event met its full 16-slot buffer |
| BrokerModel.ReceiveTakesOldest | internal/adapter/sse/broker.go:69-75 | a receive moves the oldest waiting event out of the channel to the reader and leaves everything else, other streams included, as it was |
| BrokerModel.PublishFillsOrCloses | internal/adapter/sse/broker.go:78-103 | a publish appends the event to each open stream of an addressee with fewer than 16 waiting, closes those with 16, and leaves every other stream alone |
| BrokerModel.ReceivesReturnWhatWasAddressed | internal/adapter/sse/broker.go:48-103 | over any run, the events the receives on a stream returned are exactly the first so many of those addressed to its user since it began: none repeated, skipped or out of order |
| BrokerModel.ClosedStaysFrozen | internal/adapter/sse/broker.go:113-127 | a closed channel is never reopened and never given another event |
| BrokerModel.ClosedBrokerStaysClosed | internal/adapter/sse/broker.go:130-143 | once closed, the broker hands out nothing, delivers nothing and has no open channel, whatever is called |
| Sse.Broker.RegistryMatchesChannels | internal/adapter/sse/broker.go:34-66 | a stream is registered exactly while its channel is open, and a user has an entry exactly while one of the user's channels is open: no empty inner set |
| Sse.Subscriber.TrySend | internal/adapter/sse/broker.go:90-98 | the non-blocking send needs an open channel and appends exactly when fewer than 16 events wait |
| Sse.Broker.Subscribe | internal/adapter/sse/broker.go:48-66 | a closed broker hands out nothing; otherwise one new open, registered stream is added and nothing else changes |
| Sse.Broker.PublishMessageCreated | internal/adapter/sse/broker.go:78-88 | the new state is the model's: each participant's open streams get the event or are dropped, once even when seller and buyer are one user, and all others are untouched |
| Sse.Broker.PublishToUserLocked | internal/adapter/sse/broker.go:90-103 | although the set is deleted from while it is looped over, every stream of that user is offered the event exactly once and no other stream changes |
| Sse.Broker.CloseSubscriptionLocked | internal/adapter/sse/broker.go:113-127 | closes an open channel once and unregisters it, reports whether it did, and keeps the invariant |
| Sse.Broker.Receive | internal/adapter/sse/broker.go:69-75 | taking an event from a handed-out channel gives its oldest buffered one and leaves the others in the channel, in order; the state is the model's receive and the registry stays as it was |
| Sse.Broker.Unsubscribe | internal/adapter/sse/broker.go:105-111 | the stream ends closed, at most once, and the state is the model's |
| Sse.Broker.Close | internal/adapter/sse/broker.go:130-143 | every open channel is closed exactly once and the registry is empty |
| ChatModel.EveryRunIsConsistent | db/queries/chat.sql:86-115 | in every run each read pointer is null or names a message of its own conversation and never moves back; participants differ; one conversation per (listing, seller, buyer); nothing stored is lost or rewritten |
| ChatProperties.TupleExistsOnceStarted | db/queries/chat.sql:1-7 | after any run a conversation for a tuple exists if and only if it existed before or some start call for it succeeded |
| ChatProperties.OnlyFirstStartCreates | internal/app/chat.go:88-112 | of all successful starts for a tuple exactly the first reports created; a repeat leaves every row as it was |
| ChatProperties.RepeatedStartReturnsSame | db/queries/chat.sql:1-7 | whatever happens in between, a later start for the tuple returns the conversation of the first |
| ChatProperties.StartIsRefusedInOrder | internal/app/chat.go:88-112 | each refusal of a start in order (disabled caller, unknown listing, not visible or neither active nor reserved, own listing), and success exactly when none applies |
| ChatProperties.StartStores | db/queries/chat.sql:1-7 | a start returns the conversation of the listing, its seller and the caller, and changes no other row: a new one without pointers or activity, or the stored one as it was |
| ChatProperties.MarksAmountToTheirMaximum | db/queries/chat.sql:97-115 | marking any messages read, in any order and with repeats, is marking the newest of them |
| ChatProperties.MarkMovesOnlyOwnPointer | internal/adapter/postgres/chat.go:139-164 | marking moves the caller's pointer, never back, and leaves every other column and row as it was |
| ChatProperties.MarkIsRefusedInOrder | internal/app/chat.go:206-221 | each refusal of a mark in order: a non-positive message id, a conversation the caller is neither seller nor buyer of, a message that is not stored in it; a refusal changes nothing |
| ChatProperties.MarkSucceedsExactly | internal/app/chat.go:206-221 | a mark succeeds if and only if the id is positive, the conversation exists with the caller as seller or buyer, and the message is stored in it; the laws on pointers and counts start from this condition |
| ChatProperties.SendCommitsOrStoresNothing | internal/adapter/postgres/chat.go:102-137 | a send stores one message with the next id, the trimmed body and the sender, or leaves all rows as they were |
| ChatProperties.SendIsRefusedInOrder | internal/app/chat.go:181-204 | each refusal of a send in order (disabled sender, trimmed text empty or over 2000 characters, store failure, not a participant, failure after the insert or a clock before the creation time), and success exactly when none applies; a refusal leaves the rows as they were |
| ChatProperties.SendRaisesCounterpart | db/queries/chat.sql:26-35 | a stored message raises the other participant's unread count there by exactly one; the sender's, and every count elsewhere, stay |
| ChatProperties.MarkNewestClearsUnread | db/queries/chat.sql:26-35 | marking the newest message leaves nothing unread |
| ChatProperties.MarkLeavesNewerUnread | db/queries/chat.sql:26-35 | marking a message leaves unread exactly what was unread and is newer |
| ChatProperties.EveryRunActivityIsLatest | db/queries/chat.sql:86-89 | in every run last_message_at is the time of the newest message, and null exactly while there is none |
| ChatHistory.ReverseMessages | internal/app/chat.go:272-276 | the in-place swaps reverse the page |
| ChatHistory.ReadIsRefusedInOrder | internal/app/chat.go:150-163 | each refusal of a read in order: limit outside 0..100, both directions, a non-positive identifier, not a participant; an answer exactly when none applies |
| ChatHistory.ReadIsAPieceOfHistory | internal/app/chat.go:150-179 | an answered read is a stretch of the stored history in ascending id order: the last 20, or as many as asked for, overall or before the identifier, or the first ones after it |
| ChatHistory.AfterPageIsNextStretch | db/queries/chat.sql:73-79 | a newer page is the next stretch of the history after the identifier |
| ChatHistory.BeforePageIsLastStretch | db/queries/chat.sql:65-71 | an older page, put back in order, is the last stretch of the history before the identifier |
| ChatHistory.WalkBackRebuilds | internal/app/chat.go:150-179 | reading older pages and prepending them until one is empty rebuilds the whole history in ascending id order, for any limits; the empty page comes |
| ChatHistory.WalkForwardYieldsNewer | internal/app/chat.go:150-179 | reading newer pages from an identifier until one is empty yields exactly the newer messages, in order, for any limits; the empty page comes |
| ChatHistory.ForwardWalkIsWholeHistory | internal/app/chat.go:164-173 | a finished forward walk is the whole history if and only if every message of the conversation has a greater identifier than its starting point |
| ChatHistory.FirstChatIsReachable | internal/app/chat.go:88-204 | starting one conversation and sending one message leads to the state of the next row |
| ChatHistory.FirstMessageIsOutOfForwardReach | internal/app/chat.go:164-166 | a reachable state whose only message no forward walk returns, since after_id must be positive |
| Inbox.InboxResumeMatchesOrder | db/queries/chat.sql:50-56 | the row comparison of the inbox cursor is exactly "strictly after" in the inbox order |
| Inbox.InboxPageIs | internal/app/chat.go:114-148 | a page and what lies behind its cursor are together what remained: the activity time the service puts in the cursor is the COALESCE it is compared with |
| Inbox.InboxIsRefusedInOrder | internal/app/chat.go:239-270 | the inbox is refused for a limit outside 0..100 and then for any cursor that is not absent or of version 1 with a positive id and a time; otherwise it answers |
| Inbox.FirstInboxPageIs | internal/app/chat.go:114-148 | without a cursor the page is the summaries of the first 20 conversations, or as many as asked for, with a cursor exactly when there are more |
| Inbox.WholeInboxIsSorted | db/queries/chat.sql:50-57 | the reference inbox holds exactly the user's conversations, by descending activity and id |
| Inbox.InboxWalkIsWholeInbox | internal/app/chat.go:114-148 | for a fixed state and any limits, following the cursor until it is absent yields the summaries of exactly the user's conversations, each once, in order; the cursor becomes absent |
| Inbox.SummaryIsAccurate | internal/adapter/postgres/chat.go:42-66 | a summary names the other participant, the last message of the history or none, and the true unread count |
| InboxWalks.NoConversationTwice | internal/app/chat.go:114-148 | with any starts, sends and marks between the pages, no conversation is listed twice if messages are not dated before the activity they replace |
| InboxWalks.QuietConversationIsListed | internal/app/chat.go:114-148 | a conversation that gets no message during the walk is listed by every finished inbox walk, whatever happens to the others |
| InboxWalks.InboxWalkAmidWrites | db/queries/chat.sql:50-57 | for a walk from the top: no repeats if the clock allows, and, whatever the clock does, every quiet conversation once it is finished |
| InboxWalks.SessionRunsCalls | internal/app/chat.go:88-221 | an inbox session leaves the chat that its starts, sends and marks alone leave |
| InboxTurns.RepeatsExactlyWhenRelisted | internal/app/chat.go:114-148 | for any run of starts, sends, marks and page requests, an inbox walk is free of repeats if and only if at no page a conversation on screen lies behind the cursor with fewer more recent ones before it than the page holds |
| InboxTurns.ListedExactlyWhenItsTurnComes | internal/app/chat.go:114-148 | for the same runs, a conversation is listed if and only if it was on screen or at some page lies behind the cursor with fewer more recent ones before it than the page holds |
| InboxTurns.InboxIsDecidedByTurns | db/queries/chat.sql:50-57 | both equivalences for a walk from the top |
| InboxJumps.BothIsReachable | internal/app/chat.go:88-204 | two starts and one send lead to the state of the next two rows |
| InboxJumps.InboxWalkCanRepeat | db/queries/chat.sql:86-89 | a concrete walk that lists a conversation twice after a back-dated message |
| InboxJumps.InboxWalkCanMiss | db/queries/chat.sql:50-57 | a concrete finished walk that never lists a conversation which got a message before its turn |
| Messaging.ChatStore.StartConversation | internal/adapter/postgres/chat.go:25-33 | the upsert returns the one existing row unchanged, or inserts a new one |
| Messaging.ChatStore.CreateMessage | internal/adapter/postgres/chat.go:102-137 | begin, insert, update, commit: on any failure conversations and messages are rolled back and only the identifier is used up |
| Messaging.ChatStore.AdvanceReadPointer | internal/adapter/postgres/chat.go:139-164 | refuses a message that is not of the conversation; otherwise advances the caller's pointer only |
| Messaging.ChatService.StartConversation | internal/app/chat.go:88-112 | the refusals in the code's order, then the upsert for the listing's seller and the caller |
| Messaging.ChatService.SendMessage | internal/app/chat.go:181-204 | the message is stored and its event published to both participants, or neither: a failed send leaves the broker exactly as it was |
| Messaging.ChatService.MarkConversationRead | internal/app/chat.go:206-221 | state and error are those of the specification, whose every refusal ChatProperties.MarkIsRefusedInOrder fixes, and every stored pointer stays valid |
| Realtime.EveryRunStaysCoupled | internal/app/chat.go:181-204 | in every run of listing writes, starts, sends that commit or fail, publishes in any order, subscribes, receives and closes: each conversation's seller owns its listing, and each stored message has exactly one event, in flight or published once |
| Realtime.RunsOfTheParts | internal/app/chat.go:88-221 | running the system runs the listings table, the chat and the broker on the calls it makes to each, so what every run of a part keeps, every run of the system keeps |
| Delivery.EventsAreStoredAndAddressed | internal/adapter/sse/broker.go:78-103 | in every run, every event in any channel names a message already stored in that conversation, and the channel belongs to its seller or buyer |
| Delivery.OpenStreamMissesNothing | internal/adapter/sse/broker.go:48-103 | a stream still open has been told, of all messages stored by now, exactly of those of its user whose event was neither published before it began nor is still in flight |
| CatchUp.HistoryGrows | db/queries/chat.sql:73-84 | every earlier history is a prefix of every later one |
| CatchUp.ViewsLeaveSystem | internal/app/chat.go:150-179 | looking at a conversation changes nothing: the system ends where the operations of everyone else leave it |
| CatchUp.EveryViewIsContiguous | internal/app/chat.go:150-179 | whatever is sent, dropped or read in between, a participant's screen holds a contiguous stretch of the stored history |
| CatchUp.EmptyPagesMeanComplete | internal/app/chat.go:150-179 | an empty older and an empty newer page mean the screen holds the whole history |
| CatchUp.CatchUpRepairs | internal/app/chat.go:150-179 | from any such screen, reading newer pages until one is empty and then older ones leaves exactly the stored history, and both ends are reached |
| CatchUp.LossesAreRepaired | internal/app/chat.go:150-204 | the two together: opening a conversation at any point of any run, whichever events are lost, repeated reads end with exactly the stored history |
| Handles.GrammarsAgree | internal/domain/profile.go:47-58 | the lookup's scan and the users_handle_format constraint accept the same strings |
| Handles.CheckCanonicalHandle | internal/domain/profile.go:47-58 | the early-return loop decides the grammar |
| Handles.NormalizeHandle | internal/domain/auth.go:67-96 | the builder loop computes the letter and digit runs of the name joined by single hyphens, clamped to the length bounds |
| Handles.RunsSpellTheName | internal/domain/auth.go:67-88 | no letter or digit of the lower-cased name is lost, changed or moved, and between two of them a single hyphen stands exactly where something else separated them |
| Handles.NormalizedHandleIs | internal/domain/auth.go:88-96 | 3 to 40 characters stay as they are; nothing left becomes `user`; one or two get the prefix `user-`; more than 40 are cut to 40, or to 39 when the 40th is a hyphen |
| Handles.NormalizedIsCanonical | internal/domain/auth.go:67-96 | for every user name the result meets the lookup grammar and the database constraint, with no two adjacent hyphens |
| Handles.NormalizationFixedPoints | internal/domain/auth.go:67-96 | normalisation leaves a string unchanged if and only if it is canonical without adjacent hyphens |
| Handles.NormalizeIsIdempotent | internal/domain/auth.go:67-96 | normalising twice is normalising once |
| Handles.CandidateIsCanonical | internal/domain/auth.go:98-106 | every candidate of a canonical base is canonical, for any attempt |
| Handles.CandidateIs | internal/domain/auth.go:98-106 | a later candidate is the longest beginning of the base that fits into 40 characters beside a hyphen and the attempt number, less trailing hyphens; the whole base when it fits |
| Handles.DecimalReads | internal/domain/auth.go:98-106 | the attempt number is written in decimal: it reads back as the number and has no leading zero |
| Handles.CandidatesAreDistinct | internal/domain/auth.go:98-106 | from attempt 2 on, different attempts never propose the same handle |
| Handles.FirstAttemptCoincides | internal/domain/auth.go:98-106 | for every canonical base, attempt 1 equals a later one if and only if the base has length 39 or 40 and ends in that suffix without a second hyphen before it, which normalised bases never have |
| Handles.ExhaustionNeedsManyHandles | internal/adapter/postgres/auth.go:28-40 | if attempts 2..n all hit taken handles, at least n - 1 different handles are taken |
| Accounts.ValidIdentityIsStorable | internal/domain/auth.go:43-65 | an identity that passes validation meets the column constraints |
| Accounts.AttemptIsRefusedInOrder | internal/adapter/postgres/auth.go:42-101 | each refusal of a login transaction in the order of its statements (disabled user, deleted row, malformed handle, Discord id or handle taken, token in use), commit exactly when none applies, and no row changed on a refusal |
| Accounts.AttemptStoresAccount | db/queries/auth.sql:6-18 | a committed login writes one account: a known one keeps handle, Discord id, profile and status, a new one is enabled with the proposed handle and an empty profile; both take the names, avatar and time of the login |
| Accounts.EveryRunKeepsHandles | db/queries/auth.sql:6-18 | in every run of login transactions, authentications, logouts, profile edits and disablings, handles stay canonical and pairwise different, and no account loses or changes its handle |
| Accounts.LoginOpensSession | internal/adapter/postgres/auth.go:42-101 | a committed login stores the account with what Discord said, opens a session of exactly thirty days, and deletes the session it replaces |
| Accounts.RevokedStaysRevoked | internal/adapter/postgres/auth.go:103-125 | a token without a session never authenticates again in any run with fresh tokens |
| Accounts.SessionLasts | db/queries/auth.sql:20-35 | a session is there at the end of a run if and only if nothing revoked it, for the same user and with the same expiry however often it was touched |
| Accounts.AuthenticatesExactlyWhile | internal/adapter/postgres/auth.go:103-118 | a session authenticates if and only if it was not revoked, its expiry is ahead and its user is not disabled; it yields that user under an unchanged handle |
| Accounts.AuthenticateTouchesOnly | db/queries/auth.sql:28-50 | authenticating stamps the one unexpired session it found and changes no account, no expiry and no other session; it answers the account, the disabled error or the invalid one exactly as that session and account say |
| Accounts.AccountWritesAre | db/queries/auth.sql:52-59 | a profile edit writes the profile and time of one enabled account, disabling one flag, and neither touches another account or a session |
| Accounts.LogoutIsIdempotent | db/queries/auth.sql:24-26 | a repeated logout changes nothing, and no other session is touched |
| Logins.LoginKeeps | internal/adapter/postgres/auth.go:28-40 | whatever commits in between, the whole login keeps handles canonical, distinct and unchanged |
| Logins.LoginStoresOwnHandle | internal/adapter/postgres/auth.go:28-101 | a successful login leaves the user stored under a canonical handle nobody else has: the one they had, or one nobody had |
| Logins.NoLoginEndsInConflict | internal/adapter/postgres/auth.go:28-40 | whatever commits in between, a login never fails with a taken handle or a taken Discord id: a lost race is tried again |
| Logins.LoginReturnsEnabled | internal/adapter/postgres/auth.go:42-62 | whatever commits in between, a login returns an enabled account unless it is disabled between an attempt's lookup and its writes |
| Logins.KnownUserLogsIn | internal/adapter/postgres/auth.go:42-101 | undisturbed, a known user is refused if and only if disabled; otherwise the account returned is theirs, with its handle, location and bio |
| Logins.NewUserIsEnabled | db/queries/auth.sql:6-9 | undisturbed, a new user's account is enabled, with an empty profile and the Discord id and names of the identity |
| Logins.LoginIsARun | internal/adapter/postgres/auth.go:28-101 | a login leaves the state that its own transactions and those of others leave in commit order, so what every run of transactions keeps, every login keeps |
| Logins.ExhaustedMeansTaken | internal/adapter/postgres/auth.go:28-40 | every attempt of an exhausted loop hit a taken handle; only the last may have met a racing login of the same Discord user |
| Logins.ExhaustionMeansManyHandles | internal/adapter/postgres/auth.go:28-40 | whatever commits in between, a login gives up only when at least 999 different handles are taken |
| Logins.UndisturbedLoginTakesFirstFree | internal/adapter/postgres/auth.go:28-40 | undisturbed, a new user gets the first free candidate and nothing else changes, or none is free |
| Logins.NewUserLogsIn | internal/app/auth.go:70-113 | a valid new user is refused if and only if all 1000 candidates are taken; otherwise they are logged in under the first candidate nobody has (Logins.NewUserIsEnabled says the rest of the account) |
| AuthStores.AuthStore.LoginAttempt | internal/adapter/postgres/auth.go:42-101 | state and result are those of the transaction specification, with everything rolled back on refusal |
| AuthStores.AuthStore.Login | internal/adapter/postgres/auth.go:28-40 | the loop of up to 1000 attempts, amid other transactions, computes the specification and keeps the invariants |
| AuthStores.AuthStore.Authenticate | internal/adapter/postgres/auth.go:103-118 | touches an unexpired session, also of a disabled user, and returns the user or the error |
| AuthStores.AuthStore.DeleteSession | internal/adapter/postgres/auth.go:120-125 | removes exactly the session with that hash |
| Base64Url.DecodeOfEncode | internal/app/auth.go:140-157 | decoding undoes encoding for all byte strings |
| Base64Url.EncodedText | internal/app/auth.go:148-157 | the text has the length RFC 4648 prescribes without padding and uses only its URL-safe alphabet |
| Base64Url.SymbolsAreTheAlphabet | internal/app/auth.go:148-157 | the symbols are the URL-safe alphabet of RFC 4648, each at its place |
| Base64Url.GroupsAreNumbers | internal/app/auth.go:148-157 | every group of three bytes is written as the four base-64 digits of its 24-bit number |
| Base64Url.FinalGroupIsPadded | internal/app/auth.go:148-157 | a shorter last group is written as if zero bytes followed |
| Base64Url.DecodesExactly | internal/app/auth.go:140-146 | a text decodes if and only if all its characters are symbols or line breaks and the number of symbols does not leave one over |
| AuthServices.IssuedTokenIsAccepted | internal/app/auth.go:140-157 | a token the service issues parses, is 43 characters long, and stands for the hash that was stored |
| AuthServices.TokensAreRecognised | internal/app/auth.go:140-146 | a text is taken for a session token if and only if it is 43 symbols of the alphabet with at most line breaks between them, and a login replaces exactly the session such a text names |
| AuthServices.AuthService.LoginWithDiscord | internal/app/auth.go:70-113 | the refusals in the code's order, then the login of the normalised base with the parsed previous token; the text returned encodes the token whose hash was stored |
| AuthServices.AuthService.Authenticate | internal/app/auth.go:115-124 | a text that is no token is an invalid session and touches nothing |
| AuthServices.AuthService.Logout | internal/app/auth.go:126-138 | nothing, or a text that is no token, changes nothing; otherwise that session is deleted |
| AuthServices.IssuedTokenAuthenticates | internal/app/auth.go:70-138 | from login to any later moment of any run with fresh tokens, the issued text authenticates its user if and only if it was not logged out or replaced, less than thirty days have passed, and the user is not disabled |
| AuthServices.IssuedTokenWorks | internal/app/auth.go:70-124 | after a successful login with a 32-byte token, the issued text authenticates the user at every moment of the next thirty days, in any run with fresh tokens in which nobody disables the account and nothing revokes the token |
| AuthServices.ReplacedTokenIsDead | internal/app/auth.go:88-94 | a token replaced at a login, or logged out, never authenticates again |

## Left out

- HTTP handlers, middleware, cookies, JSON bodies and the mapping of errors to status codes: plumbing over libraries.
- The Discord client, connection pool, migrations runner, configuration, logging and server runner: I/O.
- The browser code: user interface. `CatchUp` models what a client that follows the documented reads has on screen.
- JSON and RFC 3339 text of cursors: a cursor is a record, or unreadable. Base64url is modelled for tokens.
- SHA-256 and the random source: parameters.
- Numbers wider than the model's integers: identifiers, prices and times are unbounded; only the attempt number of a handle suffix is bounded by a 64-bit integer.
- Store failures other than conflicts, constraint violations and the two faults of the send transaction: one-branch error returns.
- Profile pages, category lists and the single-listing view: easy members; profile edits appear only as transactions that leave handles alone.
- Listing titles and statuses in inbox rows, and seller details in listing rows: joined columns that no property depends on.
- `return_to` and same-origin checks: filtering by a URL parser that is not part of this model.
- Walks.OwnedWalkNeverRepeats: assumes write timestamps do not go backwards, because the service takes them from a clock it does not check; Turns.RepeatsExactlyWhenReshown has no such assumption.
- InboxWalks.NoConversationTwice: assumes message times are not before the activity they replace, for the same reason; InboxTurns.RepeatsExactlyWhenRelisted does not.
- Accounts.RevokedStaysRevoked: assumes tokens are fresh (no later login issues the same hash), which randomness and SHA-256 only make overwhelmingly likely.
