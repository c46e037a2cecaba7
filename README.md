# Friend requests of a language-exchange chat backend, in Dafny

This project models the friendship rules of the backend's user controller
(`backend/src/controllers/user.controller.js`). The document database is
seen as two collections:

- the **user directory**: for each user id, the user's friend list (a MongoDB
  array, written only with `$addToSet`) and the `isOnboarded` flag;
- the **friend-request ledger**: for each request id, the sender, the
  recipient and the status, `pending` or `accepted`.

Each HTTP handler becomes an operation on that store, answered with the
handler's HTTP status:

- `sendFriendRequest` is a guarded insert. It checks, in order: a request to
  oneself (400), an unknown recipient (404), the sender already in the
  recipient's friend list (404), and any request already between the pair in
  either direction, in any status (400). Otherwise it adds one pending record
  (201).
- `acceptFriendRequest` is a guarded transition. An unknown request gives 404
  and a caller other than the stored recipient gives 403. Otherwise the handler
  sets the status to accepted, then adds each party to the other's friend list
  with set semantics (200).
- The read handlers are filters over the store: recommended users, the
  caller's friends, incoming requests, "accepted" requests and outgoing
  requests.

Files:

- `friend_store.dfy` (module `FriendStore`) holds the store as a value
  (`Store`), `$addToSet` (`AddToSet`, `AddFriend`) and the database invariant
  `Inv`. `Inv` says that friend lists have no duplicates, that issued ids lie
  below the next fresh id, that no request is to oneself and both parties are
  users, that there is at most one request per unordered pair, that friendship
  is symmetric and irreflexive, and that every accepted request has made its
  parties friends.
- `relationship.dfy` (module `Relationship`) holds the two write handlers as
  transitions `Send` and `Accept`, their outcomes with `Code()` giving the HTTP
  status, and the lemmas about them.
- `directory_queries.dfy` (module `DirectoryQueries`) holds the four read
  handlers (`RecommendedUsers`, `MyFriends`, `FriendRequests`,
  `OutgoingRequests`) and the lemmas that relate them to the store and to the
  two write handlers.
- `user_controller.dfy` (module `UserController`) holds the class `Database`.
  It has the two collections as fields. Its methods `SendFriendRequest` and
  `AcceptFriendRequest` change them in place, in the handler's order of
  writes, and are proved equal to `Send` and `Accept`. They also keep the
  class invariant `Valid()`.

Where the intended behaviour (conflicts answered 400, only pending requests
accepted, a symmetric friendship check) and the code differ, the model follows
the code:

- The already-friends check answers 404, not 400
  (`user.controller.js:57`).
- That check reads only the recipient's friend list (line 56). Under `Inv`,
  friendship is symmetric, so the check gives the same answer either way
  (`FriendsCannotRequest`).
- Accepting never checks that the request is still pending (line 102). A
  second accept answers 200 and changes nothing (`AcceptIdempotent`).
- The "accepted" list of `getFriendRequests` filters on `sender = caller`
  (lines 130-133). A request the caller received and accepted never shows
  in the caller's own "accepted" list (`AcceptUpdatesLists`).
- The handlers never check that the caller is a registered user. When the
  caller is unknown, `getRecommendedUsers` and `getMyFriends` dereference a
  missing document and answer 500 (`InternalError`). A send by an unknown
  caller still succeeds. That is why `SendPreservesInv` assumes a registered
  sender: authentication, which is not part of this model, loads the caller's
  document before any handler runs.

## Model

| member | source | states |
|---|---|---|
| `FriendStore.AddToSet` | backend/src/controllers/user.controller.js:105-111 | `$addToSet` leaves exactly the old elements plus the new one. Old entries keep their positions. Adding a present element changes nothing. A duplicate-free list stays duplicate-free. |
| `FriendStore.AddFriend` | backend/src/controllers/user.controller.js:105-111 | `findByIdAndUpdate` with `$addToSet` changes only the named user's friend list, and does nothing when no user has that id. |
| `FriendStore.AddFriendPresent` | backend/src/controllers/user.controller.js:105-111 | Re-adding a friend who is already listed, or updating a user that does not exist, leaves the directory unchanged. |
| `Relationship.SendRejections` | backend/src/controllers/user.controller.js:44-72 | Self-request gives 400. Unknown recipient gives 404. Sender already in the recipient's friend list gives 404. An existing request in either direction gives 400. Every rejection leaves users and ledger unchanged. A send passing all four guards, and only such a send, answers 201. |
| `Relationship.SendAddsOneRequest` | backend/src/controllers/user.controller.js:74-79 | A 201 send adds exactly one fresh record: pending, from the sender, to the recipient. The ledger grows by one. Existing records and all users are unchanged. |
| `Relationship.SendPreservesInv` | backend/src/controllers/user.controller.js:43-79 | A send by a registered user keeps the store invariant: no self-requests, at most one request per pair, symmetric duplicate-free friend lists. |
| `Relationship.SendThenResendRejected` | backend/src/controllers/user.controller.js:60-72 | After A's request to B is recorded, a second A-to-B send gives 400. A crossed B-to-A send also gives 400, or 404 when A is not a registered user. |
| `Relationship.FriendsCannotRequest` | backend/src/controllers/user.controller.js:55-58 | Between friends, a send in either direction answers 404 "already friends" and changes nothing, although the guard reads only the recipient's list. |
| `Relationship.AcceptRejections` | backend/src/controllers/user.controller.js:90-100 | An unknown request id gives 404. A caller who is not the stored recipient gives 403. Both leave the store unchanged. The stored recipient's accept of an existing request, and only that, answers 200. |
| `Relationship.SenderCannotAccept` | backend/src/controllers/user.controller.js:96-100 | The sender of a request is refused with 403 when accepting it. |
| `Relationship.AcceptEffect` | backend/src/controllers/user.controller.js:102-111 | A 200 accept marks that record accepted and makes both parties friends of each other. Each party's friend set gains only the other party, with no duplicate. Other records and other users are unchanged. |
| `Relationship.AcceptFriendships` | backend/src/controllers/user.controller.js:105-111 | When both parties are registered, a 200 accept adds exactly the friendship between the two parties, in both directions, and no other. |
| `Relationship.AcceptKeepsLedgerInv` | backend/src/controllers/user.controller.js:102-103 | The status write keeps the ledger's invariants: issued ids, no self-requests, at most one request per pair. |
| `Relationship.AcceptKeepsFriendsInv` | backend/src/controllers/user.controller.js:102-111 | An accept keeps friend lists duplicate-free and friendship symmetric. Every accepted request still has its parties as friends. |
| `Relationship.AcceptPreservesInv` | backend/src/controllers/user.controller.js:102-111 | Every accept keeps the store invariant, including symmetry of friendship. |
| `Relationship.AcceptIdempotent` | backend/src/controllers/user.controller.js:102-111 | Re-accepting an accepted request succeeds again and leaves the whole store, friend lists included, unchanged. |
| `DirectoryQueries.RecommendedAreStrangers` | backend/src/controllers/user.controller.js:9-15 | A registered caller's recommendations are exactly the onboarded users other than the caller who are friends in neither direction. |
| `DirectoryQueries.Populate` | backend/src/controllers/user.controller.js:25-30 | Populating a friend list keeps exactly the ids that have a user document. It never grows the list, returns the list itself when all ids resolve, and keeps it duplicate-free. |
| `DirectoryQueries.MyFriendsComplete` | backend/src/controllers/user.controller.js:23-31 | A registered caller's friends resolve to the whole friend list, with no duplicates. Each friend lists the caller back and none is the caller. |
| `DirectoryQueries.SentRequestsPartition` | backend/src/controllers/user.controller.js:130-147 | The outgoing list (pending) and the "accepted" list (accepted) are disjoint. Together they are all requests the caller sent. |
| `DirectoryQueries.SendUpdatesLists` | backend/src/controllers/user.controller.js:120-150 | After a 201 send, the new record shows in the sender's outgoing list and the recipient's incoming list. No other list changes. |
| `DirectoryQueries.AcceptUpdatesLists` | backend/src/controllers/user.controller.js:120-140 | After a 200 accept, the record leaves the recipient's incoming list and the sender's outgoing list and joins the sender's "accepted" list. It never appears in the recipient's "accepted" list. |
| `DirectoryQueries.AcceptEndsRecommendation` | backend/src/controllers/user.controller.js:4-21 | After a 200 accept, neither party is recommended to the other. |
| `DirectoryQueries.RequestAcceptScenario` | backend/src/controllers/user.controller.js:38-118 | In the full walk-through, A asks B and a repeat gives 400. B accepts with 200, the record is accepted and both are friends. Neither is recommended to the other, further sends both ways give 404, and the invariant holds. |
| `UserController.Database.SendFriendRequest` | backend/src/controllers/user.controller.js:38-84 | The in-place handler returns the outcome and leaves the database state that `Send` computes. A registered sender keeps the database valid. |
| `UserController.Database.AcceptFriendRequest` | backend/src/controllers/user.controller.js:86-118 | The in-place handler performs the status write and the two friend-list updates, returns the outcome and leaves the state that `Accept` computes. It keeps the database valid. |

## Left out

- `backend/src/lib/stream.js` is not part of this model. It wraps the
  external chat provider's SDK (user upsert, token creation) and reads
  environment variables.
- `frontend/src/store/useThemeStore.js` is not part of this model. It is a
  UI preference kept in browser storage.
- Request and response plumbing, logging, and the catch-all 500 answers for
  storage exceptions are left out. So is a malformed id that the database
  refuses to cast. The only 500 modelled is the missing-caller dereference.
- Mongoose field projections (`select`, the populated field lists, including
  the `fullname` spelling at line 149) are display concerns. Query results
  are ids, and the request queries return sets. The store's natural result
  order is not modelled. `MyFriends` keeps the friend-list order.
- User ids are taken in one canonical spelling (lower-case hex) and compared
  with plain equality. The handler's self-request guard (line 44) compares the
  raw strings, while the store lookups and writes (lines 49, 61-66, 74-77)
  cast the id to an ObjectId and accept either letter case. The model does not
  capture a caller's own id spelt in upper case slipping past line 44, which
  would create a self-request and, once accepted, a self-friendship. The "no
  self-requests" and "irreflexive" parts of `Inv` hold only for canonical ids.
- ObjectId generation is modelled as a counter (`nextId`) that hands out
  fresh request ids.
- User registration and onboarding belong to another controller. The user
  directory's keys and `isOnboarded` flags never change here; the
  `Database` constructor takes the registered users.
- The three writes of an accept are not atomic in the source. Concurrent
  handlers and a failure between those writes are not modelled. Each
  handler runs as one sequential step.
- SendPreservesInv: states invariant preservation only for a registered
  sender, and so does `Database.SendFriendRequest`. The handler itself does not
  check this; authentication, which is not part of this model, guarantees it.
