/**
 * The JSON document store of backend/db.js: four ordered collections
 * (users, documents, document_shares, share_requests) held in memory, the
 * records kept in them, and the HTTP outcomes the route handlers answer with.
 */
module Db {
  import opened Collections

  /** An ISO timestamp; the clock is outside the model and supplies it. */
  type Timestamp = string

  /** A user row. `passwordHash` is whatever bcrypt produced at registration. */
  datatype User = User(
    id: int,
    username: string,
    passwordHash: string,
    publicKey: string,
    createdAt: Timestamp)

  /** A document row; `encryptedData` is the uploaded payload, kept uninterpreted. */
  datatype Document = Document(
    id: int,
    ownerId: int,
    title: string,
    description: string,
    filename: string,
    encryptedData: string,
    signature: string,
    createdAt: Timestamp)

  /** A document_shares row: `sharedWithUserId` may read document `documentId`. */
  datatype Share = Share(
    id: int,
    documentId: int,
    sharedWithUserId: int,
    sharedByUserId: int,
    createdAt: Timestamp)

  /** A share_requests row. Only "pending" is ever written; it stays a string as stored. */
  datatype ShareRequest = ShareRequest(
    id: int,
    documentId: int,
    fromUserId: int,
    toUserId: int,
    status: string,
    createdAt: Timestamp)

  const PendingStatus: string := "pending"

  /** The rejections the handlers answer with (the try/catch 500 path is not modelled). */
  datatype Status = BadRequest | Unauthorized | Forbidden | NotFound | Conflict

  /** A handler's answer: a success body, or a rejection status. */
  datatype Reply<+T> = Ok(value: T) | Err(status: Status)

  /** JavaScript truthiness of an optional string field of a request body. */
  predicate Present(field: Option<string>)
  {
    field.Some? && field.value != ""
  }

  /** JavaScript truthiness of an optional numeric field of a request body. */
  predicate PresentId(field: Option<int>)
  {
    field.Some? && field.value != 0
  }

  function UserId(u: User): int { u.id }
  function DocumentId(d: Document): int { d.id }
  function ShareId(s: Share): int { s.id }
  function RequestId(q: ShareRequest): int { q.id }

  function UserIds(users: seq<User>): seq<int> { Map(users, UserId) }
  function DocumentIds(documents: seq<Document>): seq<int> { Map(documents, DocumentId) }
  function ShareIds(shares: seq<Share>): seq<int> { Map(shares, ShareId) }
  function RequestIds(requests: seq<ShareRequest>): seq<int> { Map(requests, RequestId) }

  /** `db.get('users').find({ id })` */
  function FindUserById(users: seq<User>, id: int): (r: Option<User>)
    ensures r.Some? ==> r.value in users && r.value.id == id
    ensures r.None? <==> forall u :: u in users ==> u.id != id
  {
    Find(users, (u: User) => u.id == id)
  }

  /** `db.get('users').find({ username })` */
  function FindUserByName(users: seq<User>, username: string): (r: Option<User>)
    ensures r.Some? ==> r.value in users && r.value.username == username
    ensures r.None? <==> forall u :: u in users ==> u.username != username
  {
    Find(users, (u: User) => u.username == username)
  }

  /** `db.get('documents').find({ id })` */
  function FindDocument(documents: seq<Document>, id: int): (r: Option<Document>)
    ensures r.Some? ==> r.value in documents && r.value.id == id
    ensures r.None? <==> forall d :: d in documents ==> d.id != id
  {
    Find(documents, (d: Document) => d.id == id)
  }

  /** With distinct ids, looking a document up by its own id finds that very document. */
  lemma FindDocumentOfMember(documents: seq<Document>, d: Document)
    requires DistinctBy(documents, DocumentId)
    requires d in documents
    ensures FindDocument(documents, d.id) == Some(d)
  {
    var r := FindDocument(documents, d.id);
    var j :| 0 <= j < |documents| && documents[j] == d;
    var i :| 0 <= i < |documents| && documents[i] == r.value;
    assert DocumentId(documents[i]) == DocumentId(documents[j]);
    assert i == j;
  }

  function UserName(u: User): string { u.username }

  /** Usernames never repeat: what the 409 check of registration maintains. */
  predicate UniqueUsernames(users: seq<User>)
  {
    DistinctBy(users, UserName)
  }

  function SharePair(s: Share): (int, int) { (s.documentId, s.sharedWithUserId) }

  /** `find({ document_id, shared_with_user_id })` finds a share row exactly when one has that pair. */
  function HasShare(shares: seq<Share>, documentId: int, userId: int): (r: bool)
    ensures r <==> exists s :: s in shares && s.documentId == documentId && s.sharedWithUserId == userId
  {
    Find(shares, (s: Share) => SharePair(s) == (documentId, userId)).Some?
  }

  /** At most one share row per (document, user): what the 409 check of sharing maintains. */
  predicate UniqueSharePairs(shares: seq<Share>)
  {
    DistinctBy(shares, SharePair)
  }

  function IsPending(q: ShareRequest): bool { q.status == PendingStatus }

  function RequestTriple(q: ShareRequest): (int, int, int) { (q.documentId, q.fromUserId, q.toUserId) }

  /**
   * `find({ document_id, from_user_id, to_user_id, status: 'pending' })` finds
   * a request exactly when a pending one has that document, sender and recipient.
   */
  function HasPendingRequest(requests: seq<ShareRequest>, documentId: int, fromUserId: int, toUserId: int)
    : (r: bool)
    ensures r <==> exists q :: q in requests && q.documentId == documentId && q.fromUserId == fromUserId &&
                              q.toUserId == toUserId && q.status == PendingStatus
  {
    Find(requests, (q: ShareRequest) => IsPending(q) && RequestTriple(q) == (documentId, fromUserId, toUserId)).Some?
  }

  /** At most one pending request per (document, sender, recipient): what the 409 check of share requests maintains. */
  predicate UniquePendingRequests(requests: seq<ShareRequest>)
  {
    DistinctBy(Filter(requests, IsPending), RequestTriple)
  }

  /** Appending a user under the next id and an unused username keeps ids distinct and usernames unique. */
  lemma InsertUserKeepsInvariant(users: seq<User>, u: User)
    requires DistinctBy(users, UserId) && UniqueUsernames(users)
    requires u.id == NextId(UserIds(users))
    requires forall v :: v in users ==> v.username != u.username
    ensures DistinctBy(users + [u], UserId) && UniqueUsernames(users + [u])
  {
    NextIdKeepsDistinct(users, UserId, u);
    AppendKeepsDistinct(users, UserName, u);
  }

  /** Appending a share for a pair that has no row keeps the pairs unique. */
  lemma InsertShareKeepsPairsUnique(shares: seq<Share>, s: Share)
    requires UniqueSharePairs(shares)
    requires !HasShare(shares, s.documentId, s.sharedWithUserId)
    ensures UniqueSharePairs(shares + [s])
  {
    AppendKeepsDistinct(shares, SharePair, s);
  }

  /** Removing share rows keeps the pairs unique. */
  lemma RemoveSharesKeepsPairsUnique(shares: seq<Share>, keep: Share -> bool)
    requires UniqueSharePairs(shares)
    ensures UniqueSharePairs(Filter(shares, keep))
  {
    FilterKeepsDistinct(shares, keep, SharePair);
  }

  /** Appending a pending request whose (document, sender, recipient) has none keeps pending requests unique. */
  lemma InsertRequestKeepsPendingUnique(requests: seq<ShareRequest>, q: ShareRequest)
    requires UniquePendingRequests(requests)
    requires IsPending(q)
    requires !HasPendingRequest(requests, q.documentId, q.fromUserId, q.toUserId)
    ensures UniquePendingRequests(requests + [q])
  {
    FilterAppend(requests, [q], IsPending);
    assert [q][1..] == [];
    assert Filter([q], IsPending) == [q];
    AppendKeepsDistinct(Filter(requests, IsPending), RequestTriple, q);
  }

  /**
   * The in-memory database. Its collections start empty, as `db.defaults`
   * creates them; the handlers of auth.dfy and documents.dfy update them.
   */
  class Store {
    var users: seq<User>
    var documents: seq<Document>
    var shares: seq<Share>
    var requests: seq<ShareRequest>

    /**
     * What the handlers preserve: ids distinct in every collection, usernames
     * unique, one share row per (document, user), and one pending request per
     * (document, sender, recipient).
     */
    ghost predicate Valid()
      reads this
    {
      && DistinctBy(users, UserId)
      && DistinctBy(documents, DocumentId)
      && DistinctBy(shares, ShareId)
      && DistinctBy(requests, RequestId)
      && UniqueUsernames(users)
      && UniqueSharePairs(shares)
      && UniquePendingRequests(requests)
    }

    constructor ()
      ensures Valid()
      ensures users == [] && documents == [] && shares == [] && requests == []
    {
      users, documents, shares, requests := [], [], [], [];
    }
  }
}
