# shareweb core, modelled in Dafny

A model of the document-sharing backend of shareweb and of the frontend's
`hashData` routine.

The backend keeps four ordered collections in a lowdb JSON store: `users`,
`documents`, `document_shares` and `share_requests`. The route handlers read
them with `find`, `filter` and `map`. A few handlers also `push` a row or
`remove` rows.

- `collections.dfy` (module `Collections`) holds the lodash-style primitives
  the handlers rely on. `find` is first-match. `filter` keeps order. It also
  holds the "largest id + 1, or 1 when empty" rule used by every insert.
- `db.dfy` (module `Db`) holds the records, the rejection statuses
  (400/401/403/404/409), and the `Store` class whose four `seq` fields are the
  collections. Its `Valid()` states the invariant the handlers keep: ids are
  distinct in every collection, usernames are unique, there is at most one
  share row per (document, user) pair, and at most one pending request per
  (document, sender, recipient).
- `auth.dfy` (module `Auth`) models `POST /register` as a method that appends
  to `db.users`. `POST /login`, `GET /users` and `GET /users/:id` are functions
  of the users collection.
- `documents.dfy` (module `Documents`) models the read-only routes
  (my-documents, all-documents, one document, a document's share list) as
  functions. Upload, share, unshare and share-request are methods on the store;
  each states the full new state and that `Valid()` is preserved.
- `crypto.dfy` (module `Crypto`) models `hashData`. It is a `for` loop over
  UTF-16 code units that keeps a signed 32-bit accumulator. The loop is
  proved equal to a left fold of `Step(h, c) = ToInt32(31·h + c)`. The output
  is `toString(16)` of the absolute value, modelled as `Hex` and proved
  invertible.

The caller's id is an input; the authentication middleware that supplies it is
outside the model. bcrypt is also outside: registration receives the hash as
a parameter, and login receives the comparison as a function-valued
parameter `passwordMatches`. Timestamps are parameters too.

Facts about the handlers that the model keeps as they are:
- Only the document's owner may send a share request
  (backend/routes/documents.js:286-289).
- A share row carries no re-encrypted payload (backend/routes/documents.js:183-189).
- Sharing does not check that the target user exists. It also does not check
  that the target differs from the owner (backend/routes/documents.js:170-177).
- No handler accepts or rejects a share request, and no handler lists pending
  requests.

## Model

| member | source | states |
|---|---|---|
| Collections.FindIndex | backend/routes/documents.js:86 | the index found is the first element satisfying the predicate; None exactly when no element does |
| Collections.Find | backend/routes/documents.js:86 | the element found satisfies the predicate and sits at an index before which no element does, so it is the first match; None exactly when none does |
| Collections.Map | backend/routes/documents.js:18 | `.map` keeps the length and puts the image of each element at its index |
| Collections.Somes | backend/routes/documents.js:43 | `.filter(x => x !== null)` after a map keeps exactly the present values and is never longer |
| Collections.Filter | backend/routes/documents.js:16-17 | an element is kept exactly when it is in the input and satisfies the predicate; never longer than the input |
| Collections.FilterIdempotent | backend/routes/documents.js:220-222 | filtering twice by the same predicate equals filtering once |
| Collections.FilterAll | backend/routes/documents.js:220-222 | a filter that every element passes returns the input unchanged |
| Collections.FilterKeepsDistinct | backend/routes/documents.js:220-222 | removing rows keeps ids distinct |
| Collections.Max | backend/routes/documents.js:127 | `Math.max` of a non-empty id list is one of the ids and at least every id |
| Collections.NextId | backend/routes/documents.js:126-127 | the new id is 1 for an empty collection, else one more than an existing id and larger than every id |
| Collections.NextIdAboveAll | backend/routes/documents.js:180-181 | the next id exceeds the id of every existing row |
| Collections.SomesMapFilterSnoc | backend/routes/documents.js:30-44 | appending one element to a filter-map-drop-None pipeline adds its present image at the end when it passes the filter, and nothing otherwise |
| Collections.AppendKeepsDistinct | backend/routes/documents.js:170-181 | appending a row whose key no row has keeps keys distinct |
| Collections.NextIdKeepsDistinct | backend/routes/documents.js:306-307 | appending a row under the next id keeps ids distinct |
| Db.FindUserById | backend/routes/auth.js:113 | a user found has the id; none found exactly when no user has it |
| Db.FindUserByName | backend/routes/auth.js:19 | a user found has the username; none found exactly when no user has it |
| Db.FindDocument | backend/routes/documents.js:86 | a document found has the id; none found exactly when no document has it |
| Db.FindDocumentOfMember | backend/routes/documents.js:86 | with distinct ids, looking a stored document up by its id finds that document |
| Db.HasShare | backend/routes/documents.js:94-96 | `find({ document_id, shared_with_user_id })` succeeds exactly when a share row has that pair |
| Db.HasPendingRequest | backend/routes/documents.js:292-299 | `find({ document_id, from_user_id, to_user_id, status: 'pending' })` succeeds exactly when a pending request has that document, sender and recipient |
| Db.InsertShareKeepsPairsUnique | backend/routes/documents.js:170-191 | appending a share for a pair that has no row keeps at most one row per (document, user) |
| Db.RemoveSharesKeepsPairsUnique | backend/routes/documents.js:219-222 | removing share rows keeps at most one row per (document, user) |
| Db.InsertRequestKeepsPendingUnique | backend/routes/documents.js:292-316 | appending a pending request whose (document, sender, recipient) has none keeps at most one pending request per triple |
| Db.InsertUserKeepsInvariant | backend/routes/auth.js:19-40 | a user appended under the next id with an unused username keeps ids distinct and usernames unique |
| Db.Store.constructor | backend/db.js:17-22 | the store starts with four empty collections, which satisfy the invariant |
| Auth.Register | backend/routes/auth.js:10-45 | 400 and nothing inserted when username, password or publicKey is missing; 409 and users unchanged when the username exists; otherwise exactly one user appended with id max + 1 (or 1), returned; the invariant is preserved |
| Auth.RegisterTwice | backend/routes/auth.js:19-22 | a second registration of the same username is rejected with 409 |
| Auth.Login | backend/routes/auth.js:53-89 | 400 on a missing field; the same 401 for an unknown username and for a failed password check; otherwise the stored user's id, username and public key |
| Auth.UserList | backend/routes/auth.js:97-101 | one entry per user in collection order with its id, username and public key; the entry type has no password hash |
| Auth.GetUser | backend/routes/auth.js:110-123 | 404 exactly when no user has the id; otherwise that user's public fields |
| Auth.GetUserAgreesWithList | backend/routes/auth.js:99-117 | the lookup by id succeeds exactly for ids shown by the user list and returns an entry of it |
| Documents.WithOwner | backend/routes/documents.js:19-24 | a document is shown with its owner's username and public key, or "Unknown" and "" when the owner is missing |
| Documents.CanRead | backend/routes/documents.js:93-100 | a user may read a document exactly when they own it or a share row for (document, user) exists |
| Documents.ManagedDocument | backend/routes/documents.js:160-168 | 404 exactly when the document is absent, 403 exactly when it exists and the caller is not its owner, else the caller's document |
| Documents.SharedEntry | backend/routes/documents.js:32-42 | a share yields its document when that exists, and nothing otherwise |
| Documents.OwnEntriesAreOwned | backend/routes/documents.js:16-27 | the own list is the caller's documents in collection order, each marked owner with its owner's details |
| Documents.SharedEntriesAreShared | backend/routes/documents.js:30-44 | the shared list holds exactly the existing documents named by shares addressed to the caller, each marked shared, and is no longer than those shares |
| Documents.SharedEntriesSnoc | backend/routes/documents.js:30-44 | a new share row adds exactly the entry it yields at the end of the shared entries, when addressed to the caller |
| Documents.MyDocuments | backend/routes/documents.js:11-49 | the own list is exactly the caller's documents in collection order; the shared list holds exactly the existing documents named by shares addressed to the caller; owner details are attached to every entry |
| Documents.ShareAppearsLastInMyDocuments | backend/routes/documents.js:30-44 | a new share to the caller on an existing document adds that document at the end of the shared list; any other new share leaves the list unchanged |
| Documents.AllDocuments | backend/routes/documents.js:57-71 | one summary per document in collection order with id, title, description, owner id, owner username and creation time |
| Documents.ReadDocument | backend/routes/documents.js:81-108 | 404 when the document is absent; 403 unless the caller owns it or holds a share on it; otherwise the document with its owner's details |
| Documents.OwnerCanRead | backend/routes/documents.js:86-100 | with distinct ids, the owner can always read their own document |
| Documents.Holder | backend/routes/documents.js:251-257 | a share yields its recipient's id and username with the share time, or nothing when the user does not exist |
| Documents.ShareList | backend/routes/documents.js:232-262 | 404 and 403 as for the owner guard; otherwise exactly the existing recipients of shares on the document |
| Documents.ShareAppearsLastInShareList | backend/routes/documents.js:248-260 | a new share row on the document adds exactly the holder it yields at the end of the share list, so the list follows the share collection's order |
| Documents.WithoutShare | backend/routes/documents.js:219-222 | exactly the rows not matching (document, user) remain, and no matching row is left |
| Documents.WithoutShareIdempotent | backend/routes/documents.js:219-222 | removing the same pair twice equals removing it once |
| Documents.WithoutAbsentShare | backend/routes/documents.js:219-224 | removing a pair that has no row leaves the shares unchanged |
| Documents.Upload | backend/routes/documents.js:116-145 | 400 and documents unchanged when title, filename, encryptedData or signature is missing; otherwise exactly one document appended under the next id, owned by the caller, with description defaulting to "" |
| Documents.ShareDocument | backend/routes/documents.js:153-194 | 404 / 403 from the owner guard; 409 when a share for (document, target) exists; otherwise one share appended under the next id with shared_by = caller, after which the target can read the document |
| Documents.ShareTwice | backend/routes/documents.js:170-177 | after a successful share, the identical share is rejected with 409 and only one row was added |
| Documents.Unshare | backend/routes/documents.js:202-224 | 404 / 403 from the owner guard; otherwise every matching share is removed, others untouched, and the call succeeds even if nothing matched; a non-owner target can no longer read |
| Documents.UnshareTwice | backend/routes/documents.js:219-224 | unsharing twice answers the same and leaves the same rows as unsharing once |
| Documents.SendShareRequest | backend/routes/documents.js:270-320 | 400 when documentId or toUserId is missing or 0; 404 when the document is absent; 403 unless the caller owns it; 409 when the same pending request exists; otherwise one pending request appended under the next id |
| Crypto.ToInt32 | frontend/src/utils/crypto.js:48 | `hash & hash` yields a signed 32-bit value differing from its argument by a multiple of 2^32, and is the identity on such values |
| Crypto.ShiftLeft5 | frontend/src/utils/crypto.js:47 | `h << 5` is a signed 32-bit value equal to 32·h modulo 2^32 |
| Crypto.LoopBodyIsStep | frontend/src/utils/crypto.js:47-48 | the two statements of the loop body compute (31·h + c) mod 2^32, read as signed |
| Crypto.Step | frontend/src/utils/crypto.js:47-48 | one round of the loop yields a signed 32-bit value |
| Crypto.HashFrom | frontend/src/utils/crypto.js:45-49 | after every character the accumulator is a signed 32-bit value |
| Crypto.StringHash | frontend/src/utils/crypto.js:43-49 | the accumulator after the whole loop, started at 0, is a signed 32-bit value |
| Crypto.HashFromSnoc | frontend/src/utils/crypto.js:45-49 | feeding one more code unit applies one more step |
| Crypto.StringHashSnoc | frontend/src/utils/crypto.js:45-49 | the hash of s ++ [c] is the step function applied to the hash of s |
| Crypto.Abs | frontend/src/utils/crypto.js:50 | `Math.abs` yields the value or its negation, never negative |
| Crypto.Hex | frontend/src/utils/crypto.js:50 | `toString(16)` gives lowercase hex digits only (no sign), no leading zero except for 0 |
| Crypto.HexRoundTrip | frontend/src/utils/crypto.js:50 | parsing the hex output gives the number back |
| Crypto.HexLength | frontend/src/utils/crypto.js:50 | a number below 16^k prints in at most k digits |
| Crypto.HashHexLength | frontend/src/utils/crypto.js:50 | the output of hashData has at most eight digits |
| Crypto.EmptyHash | frontend/src/utils/crypto.js:43-50 | hashing the empty string yields "0" |
| Crypto.HashData | frontend/src/utils/crypto.js:42-51 | the loop returns the hex of the absolute value of the folded hash of its input |

## Left out

- The try/catch paths that answer 500 for exceptions from the environment are not modelled.
- Express routing, the `authenticateToken` middleware and JWT signing at login (backend/routes/auth.js:76-80) are not modelled. The caller id is a trusted input, and login returns no token.
- bcrypt hashing and comparison are foreign calls. The hash is a parameter of `Register`, and the comparison is the parameter `passwordMatches` of `Login`.
- lowdb file persistence and directory creation (backend/db.js) are I/O. The collections live in memory.
- `new Date().toISOString()` is nondeterministic. Each timestamp is a parameter.
- Concurrency is not modelled: each handler runs atomically. The interleaving at `await bcrypt.hash`, between the duplicate-username check and the insert, is left out.
- JSON values of other types are not modelled. Ids are integers and text fields are strings. Truthiness follows that typing: a missing field or "" is falsy, and a missing id or 0 is falsy. `parseInt` giving NaN is not represented. Neither is a string id that fails a strict-equality `find`.
- The `JSON.stringify` branch of `hashData` for non-string data is not modelled. The input is the string's code units.
- The rest of frontend/src/utils/crypto.js is not modelled. That is key generation, ECDSA sign/verify through elliptic, the Base64 `encryptData`/`decryptData`, and FileReader/Blob, all browser or library calls.
- The React pages and components are UI state and rendering. The axios client (frontend/src/utils/api.js) is network plumbing. Neither is modelled.
- Documents.ShareList: its own contract states which recipients appear and bounds their number, not their order. The order is stated separately by Documents.ShareAppearsLastInShareList.
- A `POST /documents/:id/share` body without `targetUserId` is not modelled. The handler accepts it, pushes a share row whose `shared_with_user_id` is undefined, and answers 200 (backend/routes/documents.js:156-191). In the model `targetUserId` is always an integer.
