/**
 * The document routes of backend/routes/documents.js. The read-only routes
 * (my documents, all documents, one document, its share list) are functions
 * of the collections; upload, share, unshare and share requests are methods
 * that push into or remove from the store's collections. The caller's id
 * comes from the authentication middleware and is trusted as given.
 */
module Documents {
  import opened Collections
  import opened Db

  datatype Relationship = Owner | Shared

  /** A document row spread together with its owner's username and public key. */
  datatype DocumentView = DocumentView(document: Document, ownerUsername: string, ownerPublicKey: string)

  /** An entry of the my-documents answer. */
  datatype ListedDocument = ListedDocument(view: DocumentView, relationship: Relationship)

  datatype MyDocumentsAnswer = MyDocumentsAnswer(
    ownDocuments: seq<ListedDocument>,
    sharedDocuments: seq<ListedDocument>)

  /** An entry of the dashboard list: no payload, no signature. */
  datatype DocumentSummary = DocumentSummary(
    id: int,
    title: string,
    description: string,
    ownerId: int,
    ownerUsername: string,
    createdAt: Timestamp)

  /** An entry of a document's share list. */
  datatype ShareHolder = ShareHolder(id: int, username: string, sharedAt: Timestamp)

  /** The owner's details are looked up by id; a missing owner reads as "Unknown" with an empty key. */
  function WithOwner(users: seq<User>, d: Document): (v: DocumentView)
    ensures v.document == d
    ensures FindUserById(users, d.ownerId).Some? ==>
      v.ownerUsername == FindUserById(users, d.ownerId).value.username &&
      v.ownerPublicKey == FindUserById(users, d.ownerId).value.publicKey
    ensures FindUserById(users, d.ownerId).None? ==> v.ownerUsername == "Unknown" && v.ownerPublicKey == ""
  {
    match FindUserById(users, d.ownerId)
    case None => DocumentView(d, "Unknown", "")
    case Some(owner) => DocumentView(d, owner.username, owner.publicKey)
  }

  function EntryDocument(e: ListedDocument): Document { e.view.document }

  /** The documents an answer lists, in its order. */
  function Documents(entries: seq<ListedDocument>): seq<Document> { Map(entries, EntryDocument) }

  // ---------------------------------------------------------------------------
  // Access policy

  /** A user may read a document they own or that a share row grants them. */
  function CanRead(d: Document, shares: seq<Share>, userId: int): (r: bool)
    ensures r <==> d.ownerId == userId ||
                   exists s :: s in shares && s.documentId == d.id && s.sharedWithUserId == userId
  {
    d.ownerId == userId || HasShare(shares, d.id, userId)
  }

  /**
   * The guard that opens share, unshare and the share list: 404 when no
   * document has the id, 403 when the caller does not own it.
   */
  function ManagedDocument(documents: seq<Document>, documentId: int, caller: int): (r: Reply<Document>)
    ensures r == Err(NotFound) <==> FindDocument(documents, documentId).None?
    ensures r == Err(Forbidden) <==>
      FindDocument(documents, documentId).Some? && FindDocument(documents, documentId).value.ownerId != caller
    ensures r.Ok? ==> FindDocument(documents, documentId) == Some(r.value) && r.value.ownerId == caller
    ensures r.Ok? ==> r.value in documents && r.value.id == documentId
  {
    match FindDocument(documents, documentId)
    case None => Err(NotFound)
    case Some(d) => if d.ownerId != caller then Err(Forbidden) else Ok(d)
  }

  // ---------------------------------------------------------------------------
  // Read-only routes

  function OwnedBy(userId: int): Document -> bool { (d: Document) => d.ownerId == userId }
  function AddressedTo(userId: int): Share -> bool { (s: Share) => s.sharedWithUserId == userId }
  function OnDocument(documentId: int): Share -> bool { (s: Share) => s.documentId == documentId }

  /** The my-documents entry a share yields: its document, if that still exists. */
  function SharedEntry(users: seq<User>, documents: seq<Document>, s: Share): (r: Option<ListedDocument>)
    ensures r.None? <==> FindDocument(documents, s.documentId).None?
    ensures r.Some? ==> r.value == ListedDocument(WithOwner(users, FindDocument(documents, s.documentId).value), Shared)
  {
    match FindDocument(documents, s.documentId)
    case None => None
    case Some(d) => Some(ListedDocument(WithOwner(users, d), Shared))
  }

  function OwnEntries(users: seq<User>, documents: seq<Document>, caller: int): seq<ListedDocument>
  {
    Map(Filter(documents, OwnedBy(caller)), (d: Document) => ListedDocument(WithOwner(users, d), Owner))
  }

  function SharedEntries(users: seq<User>, documents: seq<Document>, shares: seq<Share>, caller: int): seq<ListedDocument>
  {
    Somes(Map(Filter(shares, AddressedTo(caller)), (s: Share) => SharedEntry(users, documents, s)))
  }

  /** The own list holds the caller's documents in collection order, each marked Owner with its owner's details. */
  lemma OwnEntriesAreOwned(users: seq<User>, documents: seq<Document>, caller: int)
    ensures Documents(OwnEntries(users, documents, caller)) == Filter(documents, OwnedBy(caller))
    ensures forall e :: e in OwnEntries(users, documents, caller) ==>
      e.relationship == Owner && e.view == WithOwner(users, e.view.document)
  {
    var own := OwnEntries(users, documents, caller);
    var owned := Filter(documents, OwnedBy(caller));
    assert forall i :: 0 <= i < |owned| ==> Documents(own)[i] == owned[i];
    forall e | e in own ensures e.relationship == Owner && e.view == WithOwner(users, e.view.document) {
      var i :| 0 <= i < |own| && own[i] == e;
      assert e == ListedDocument(WithOwner(users, owned[i]), Owner);
    }
  }

  /** The shared list holds exactly the existing documents named by shares addressed to the caller, each marked Shared. */
  lemma SharedEntriesAreShared(users: seq<User>, documents: seq<Document>, shares: seq<Share>, caller: int)
    ensures forall e :: e in SharedEntries(users, documents, shares, caller) ==>
      e.relationship == Shared && e.view == WithOwner(users, e.view.document)
    ensures forall d :: d in Documents(SharedEntries(users, documents, shares, caller)) <==>
      exists s :: s in shares && s.sharedWithUserId == caller && FindDocument(documents, s.documentId) == Some(d)
    ensures |SharedEntries(users, documents, shares, caller)| <= |Filter(shares, AddressedTo(caller))|
  {
    var shared := SharedEntries(users, documents, shares, caller);
    var addressed := Filter(shares, AddressedTo(caller));
    var f := (s: Share) => SharedEntry(users, documents, s);
    var entries := Map(addressed, f);
    MapMembership(addressed, f);
    MapMembership(shared, EntryDocument);
    forall d ensures d in Documents(shared) <==>
      exists s :: s in shares && s.sharedWithUserId == caller && FindDocument(documents, s.documentId) == Some(d)
    {
      if d in Documents(shared) {
        var e :| e in shared && EntryDocument(e) == d;
        assert Some(e) in entries;
        var s :| s in addressed && f(s) == Some(e);
        assert s in shares && s.sharedWithUserId == caller;
      }
      if exists s :: s in shares && s.sharedWithUserId == caller && FindDocument(documents, s.documentId) == Some(d) {
        var s :| s in shares && s.sharedWithUserId == caller && FindDocument(documents, s.documentId) == Some(d);
        assert s in addressed;
        var e := f(s).value;
        assert Some(e) in entries;
        assert EntryDocument(e) == d;
      }
    }
  }

  /**
   * GET /my-documents: the caller's own documents in collection order, and,
   * for each share addressed to the caller in share order, the document it
   * names when that document exists.
   */
  function MyDocuments(users: seq<User>, documents: seq<Document>, shares: seq<Share>, caller: int)
    : (r: MyDocumentsAnswer)
    ensures Documents(r.ownDocuments) == Filter(documents, OwnedBy(caller))
    ensures forall d :: d in Documents(r.ownDocuments) <==> d in documents && d.ownerId == caller
    ensures forall e :: e in r.ownDocuments ==>
      e.relationship == Owner && e.view == WithOwner(users, e.view.document)
    ensures forall e :: e in r.sharedDocuments ==>
      e.relationship == Shared && e.view == WithOwner(users, e.view.document)
    ensures forall d :: d in Documents(r.sharedDocuments) <==>
      exists s :: s in shares && s.sharedWithUserId == caller && FindDocument(documents, s.documentId) == Some(d)
    ensures |r.sharedDocuments| <= |Filter(shares, AddressedTo(caller))|
  {
    OwnEntriesAreOwned(users, documents, caller);
    SharedEntriesAreShared(users, documents, shares, caller);
    MyDocumentsAnswer(OwnEntries(users, documents, caller), SharedEntries(users, documents, shares, caller))
  }

  /** GET /all-documents: every document, in collection order, without payload or signature. */
  function AllDocuments(users: seq<User>, documents: seq<Document>): (r: seq<DocumentSummary>)
    ensures |r| == |documents|
    ensures forall i :: 0 <= i < |documents| ==>
      && r[i].id == documents[i].id && r[i].title == documents[i].title
      && r[i].description == documents[i].description && r[i].ownerId == documents[i].ownerId
      && r[i].ownerUsername == WithOwner(users, documents[i]).ownerUsername
      && r[i].createdAt == documents[i].createdAt
  {
    Map(documents, (d: Document) =>
      DocumentSummary(d.id, d.title, d.description, d.ownerId, WithOwner(users, d).ownerUsername, d.createdAt))
  }

  /** GET /documents/:id: 404 when absent, 403 unless the caller may read it, else the document and its owner. */
  function ReadDocument(users: seq<User>, documents: seq<Document>, shares: seq<Share>,
                        documentId: int, caller: int): (r: Reply<DocumentView>)
    ensures r == Err(NotFound) <==> FindDocument(documents, documentId).None?
    ensures r == Err(Forbidden) <==>
      FindDocument(documents, documentId).Some? && !CanRead(FindDocument(documents, documentId).value, shares, caller)
    ensures r.Ok? <==>
      FindDocument(documents, documentId).Some? && CanRead(FindDocument(documents, documentId).value, shares, caller)
    ensures r.Ok? ==> r.value == WithOwner(users, FindDocument(documents, documentId).value)
  {
    match FindDocument(documents, documentId)
    case None => Err(NotFound)
    case Some(d) =>
      if d.ownerId != caller && !HasShare(shares, documentId, caller) then Err(Forbidden)
      else Ok(WithOwner(users, d))
  }

  /** With distinct document ids, an owner can always read their document. */
  lemma OwnerCanRead(users: seq<User>, documents: seq<Document>, shares: seq<Share>, d: Document)
    requires DistinctBy(documents, DocumentId)
    requires d in documents
    ensures ReadDocument(users, documents, shares, d.id, d.ownerId) == Ok(WithOwner(users, d))
  {
    FindDocumentOfMember(documents, d);
  }

  /** The share list entry a share row yields: its recipient, if that user exists. */
  function Holder(users: seq<User>, s: Share): (r: Option<ShareHolder>)
    ensures r.None? <==> FindUserById(users, s.sharedWithUserId).None?
    ensures r.Some? ==>
      var u := FindUserById(users, s.sharedWithUserId).value;
      r.value == ShareHolder(u.id, u.username, s.createdAt)
  {
    match FindUserById(users, s.sharedWithUserId)
    case None => None
    case Some(u) => Some(ShareHolder(u.id, u.username, s.createdAt))
  }

  /**
   * GET /documents/:id/shares: owner only (404 / 403 as ManagedDocument);
   * the users holding shares on the document in share order, skipping shares
   * whose user no longer exists.
   */
  function ShareList(users: seq<User>, documents: seq<Document>, shares: seq<Share>,
                     documentId: int, caller: int): (r: Reply<seq<ShareHolder>>)
    ensures r.Err? <==> ManagedDocument(documents, documentId, caller).Err?
    ensures r.Err? ==> r.status == ManagedDocument(documents, documentId, caller).status
    ensures r.Ok? ==> |r.value| <= |Filter(shares, OnDocument(documentId))|
    ensures r.Ok? ==> forall h :: h in r.value <==>
      exists s :: s in shares && s.documentId == documentId && Holder(users, s) == Some(h)
    ensures r.Ok? ==> forall h :: h in r.value ==> exists u :: u in users && u.id == h.id && u.username == h.username
  {
    match ManagedDocument(documents, documentId, caller)
    case Err(status) => Err(status)
    case Ok(_) =>
      var onDocument := Filter(shares, OnDocument(documentId));
      var entries := Map(onDocument, (s: Share) => Holder(users, s));
      MapMembership(onDocument, (s: Share) => Holder(users, s));
      assert forall h :: h in Somes(entries) <==> exists s :: s in onDocument && Holder(users, s) == Some(h);
      Ok(Somes(entries))
  }

  /** A new share row extends the shared entries by exactly the entry it yields, when it is addressed to the caller. */
  lemma SharedEntriesSnoc(users: seq<User>, documents: seq<Document>,
                           shares: seq<Share>, s: Share, caller: int)
    ensures SharedEntries(users, documents, shares + [s], caller) ==
      SharedEntries(users, documents, shares, caller) +
      (if s.sharedWithUserId == caller && SharedEntry(users, documents, s).Some?
       then [SharedEntry(users, documents, s).value] else [])
  {
    SomesMapFilterSnoc(shares, s, AddressedTo(caller), (x: Share) => SharedEntry(users, documents, x));
  }

  /** A share on an existing document addressed to the caller adds that document at the end of its shared list. */
  lemma ShareAppearsLastInMyDocuments(users: seq<User>, documents: seq<Document>,
                                      shares: seq<Share>, s: Share, caller: int)
    ensures s.sharedWithUserId == caller && FindDocument(documents, s.documentId).Some? ==>
      MyDocuments(users, documents, shares + [s], caller).sharedDocuments ==
      MyDocuments(users, documents, shares, caller).sharedDocuments
        + [ListedDocument(WithOwner(users, FindDocument(documents, s.documentId).value), Shared)]
    ensures !(s.sharedWithUserId == caller && FindDocument(documents, s.documentId).Some?) ==>
      MyDocuments(users, documents, shares + [s], caller).sharedDocuments ==
      MyDocuments(users, documents, shares, caller).sharedDocuments
  {
    SharedEntriesSnoc(users, documents, shares, s, caller);
  }

  /** A new share row on the document extends the share list by exactly the holder it yields, at the end. */
  lemma ShareAppearsLastInShareList(users: seq<User>, documents: seq<Document>,
                                     shares: seq<Share>, s: Share, documentId: int, caller: int)
    requires ManagedDocument(documents, documentId, caller).Ok?
    ensures ShareList(users, documents, shares + [s], documentId, caller).value ==
      ShareList(users, documents, shares, documentId, caller).value +
      (if s.documentId == documentId && Holder(users, s).Some? then [Holder(users, s).value] else [])
  {
    SomesMapFilterSnoc(shares, s, OnDocument(documentId), (x: Share) => Holder(users, x));
  }

  // ---------------------------------------------------------------------------
  // Share rows without a (document, user) pair

  function NotPair(documentId: int, userId: int): Share -> bool
  {
    (s: Share) => !(s.documentId == documentId && s.sharedWithUserId == userId)
  }

  /** `remove({ document_id, shared_with_user_id })`: every matching row goes, the rest stay in order. */
  function WithoutShare(shares: seq<Share>, documentId: int, userId: int): (r: seq<Share>)
    ensures !HasShare(r, documentId, userId)
    ensures forall s :: s in r <==> s in shares && !(s.documentId == documentId && s.sharedWithUserId == userId)
    ensures |r| <= |shares|
  {
    Filter(shares, NotPair(documentId, userId))
  }

  /** Removing the same pair twice removes nothing more. */
  lemma WithoutShareIdempotent(shares: seq<Share>, documentId: int, userId: int)
    ensures WithoutShare(WithoutShare(shares, documentId, userId), documentId, userId) ==
            WithoutShare(shares, documentId, userId)
  {
    FilterIdempotent(shares, NotPair(documentId, userId));
  }

  /** Removing a pair that has no share row leaves the rows exactly as they were. */
  lemma WithoutAbsentShare(shares: seq<Share>, documentId: int, userId: int)
    requires !HasShare(shares, documentId, userId)
    ensures WithoutShare(shares, documentId, userId) == shares
  {
    FilterAll(shares, NotPair(documentId, userId));
  }

  // ---------------------------------------------------------------------------
  // Routes that change the store

  /**
   * POST /documents: 400 unless title, filename, encryptedData and signature
   * are present; otherwise one document owned by the caller is appended under
   * the next id, with the description defaulting to "", and its id returned.
   */
  method Upload(db: Store, title: Option<string>, description: Option<string>, filename: Option<string>,
                encryptedData: Option<string>, signature: Option<string>, caller: int, now: Timestamp)
    returns (r: Reply<int>)
    modifies db
    ensures db.users == old(db.users) && db.shares == old(db.shares) && db.requests == old(db.requests)
    ensures !(Present(title) && Present(filename) && Present(encryptedData) && Present(signature)) ==>
      r == Err(BadRequest) && db.documents == old(db.documents)
    ensures Present(title) && Present(filename) && Present(encryptedData) && Present(signature) ==>
      && r == Ok(NextId(DocumentIds(old(db.documents))))
      && db.documents == old(db.documents) +
           [Document(r.value, caller, title.value, if Present(description) then description.value else "",
                     filename.value, encryptedData.value, signature.value, now)]
    ensures r.Ok? ==> forall d :: d in old(db.documents) ==> d.id < r.value
    ensures old(db.Valid()) ==> db.Valid()
  {
    if !Present(title) || !Present(filename) || !Present(encryptedData) || !Present(signature) {
      return Err(BadRequest);
    }
    var newId := NextId(DocumentIds(db.documents));
    var document := Document(newId, caller, title.value, if Present(description) then description.value else "",
                             filename.value, encryptedData.value, signature.value, now);
    NextIdAboveAll(db.documents, DocumentId);
    if DistinctBy(db.documents, DocumentId) {
      NextIdKeepsDistinct(db.documents, DocumentId, document);
    }
    db.documents := db.documents + [document];
    r := Ok(newId);
  }

  /**
   * POST /documents/:id/share: 404 / 403 as ManagedDocument, 409 when the
   * target already holds a share on the document; otherwise one share row
   * under the next id, shared by the caller, is appended. The target need
   * not exist and may be the owner.
   */
  method ShareDocument(db: Store, documentId: int, targetUserId: int, caller: int, now: Timestamp)
    returns (r: Reply<()>)
    modifies db
    ensures db.users == old(db.users) && db.documents == old(db.documents) && db.requests == old(db.requests)
    ensures ManagedDocument(old(db.documents), documentId, caller).Err? ==>
      r == Err(ManagedDocument(old(db.documents), documentId, caller).status) && db.shares == old(db.shares)
    ensures ManagedDocument(old(db.documents), documentId, caller).Ok? &&
            HasShare(old(db.shares), documentId, targetUserId) ==>
      r == Err(Conflict) && db.shares == old(db.shares)
    ensures ManagedDocument(old(db.documents), documentId, caller).Ok? &&
            !HasShare(old(db.shares), documentId, targetUserId) ==>
      && r == Ok(())
      && db.shares == old(db.shares) +
           [Share(NextId(ShareIds(old(db.shares))), documentId, targetUserId, caller, now)]
    ensures r.Ok? ==> HasShare(db.shares, documentId, targetUserId)
    ensures r.Ok? ==> ReadDocument(db.users, db.documents, db.shares, documentId, targetUserId).Ok?
    ensures old(db.Valid()) ==> db.Valid()
  {
    var guard := ManagedDocument(db.documents, documentId, caller);
    if guard.Err? {
      return Err(guard.status);
    }
    if HasShare(db.shares, documentId, targetUserId) {
      return Err(Conflict);
    }
    var newId := NextId(ShareIds(db.shares));
    var share := Share(newId, documentId, targetUserId, caller, now);
    if DistinctBy(db.shares, ShareId) {
      NextIdKeepsDistinct(db.shares, ShareId, share);
    }
    if UniqueSharePairs(db.shares) {
      InsertShareKeepsPairsUnique(db.shares, share);
    }
    db.shares := db.shares + [share];
    assert share in db.shares;
    r := Ok(());
  }

  /**
   * DELETE /documents/:id/share/:userId: 404 / 403 as ManagedDocument;
   * otherwise every share row for (document, target) is removed, and the
   * call succeeds whether or not any row matched.
   */
  method Unshare(db: Store, documentId: int, targetUserId: int, caller: int) returns (r: Reply<()>)
    modifies db
    ensures db.users == old(db.users) && db.documents == old(db.documents) && db.requests == old(db.requests)
    ensures ManagedDocument(old(db.documents), documentId, caller).Err? ==>
      r == Err(ManagedDocument(old(db.documents), documentId, caller).status) && db.shares == old(db.shares)
    ensures ManagedDocument(old(db.documents), documentId, caller).Ok? ==>
      r == Ok(()) && db.shares == WithoutShare(old(db.shares), documentId, targetUserId)
    ensures r.Ok? ==> !HasShare(db.shares, documentId, targetUserId)
    ensures r.Ok? && targetUserId != caller ==>
      ReadDocument(db.users, db.documents, db.shares, documentId, targetUserId) == Err(Forbidden)
    ensures old(db.Valid()) ==> db.Valid()
  {
    var guard := ManagedDocument(db.documents, documentId, caller);
    if guard.Err? {
      return Err(guard.status);
    }
    if DistinctBy(db.shares, ShareId) {
      FilterKeepsDistinct(db.shares, NotPair(documentId, targetUserId), ShareId);
    }
    if UniqueSharePairs(db.shares) {
      RemoveSharesKeepsPairsUnique(db.shares, NotPair(documentId, targetUserId));
    }
    db.shares := WithoutShare(db.shares, documentId, targetUserId);
    r := Ok(());
  }

  /**
   * POST /share-requests: 400 when documentId or toUserId is missing or 0;
   * 404 when no document has the id; 403 unless the caller owns it; 409 when
   * a pending request with the same document, sender and recipient exists;
   * otherwise one pending request under the next id is appended.
   */
  method SendShareRequest(db: Store, documentId: Option<int>, toUserId: Option<int>, caller: int, now: Timestamp)
    returns (r: Reply<()>)
    modifies db
    ensures db.users == old(db.users) && db.documents == old(db.documents) && db.shares == old(db.shares)
    ensures !(PresentId(documentId) && PresentId(toUserId)) ==>
      r == Err(BadRequest) && db.requests == old(db.requests)
    ensures PresentId(documentId) && PresentId(toUserId) &&
            ManagedDocument(old(db.documents), documentId.value, caller).Err? ==>
      r == Err(ManagedDocument(old(db.documents), documentId.value, caller).status) && db.requests == old(db.requests)
    ensures PresentId(documentId) && PresentId(toUserId) &&
            ManagedDocument(old(db.documents), documentId.value, caller).Ok? &&
            HasPendingRequest(old(db.requests), documentId.value, caller, toUserId.value) ==>
      r == Err(Conflict) && db.requests == old(db.requests)
    ensures PresentId(documentId) && PresentId(toUserId) &&
            ManagedDocument(old(db.documents), documentId.value, caller).Ok? &&
            !HasPendingRequest(old(db.requests), documentId.value, caller, toUserId.value) ==>
      && r == Ok(())
      && db.requests == old(db.requests) +
           [ShareRequest(NextId(RequestIds(old(db.requests))), documentId.value, caller, toUserId.value,
                         PendingStatus, now)]
    ensures r.Ok? ==> HasPendingRequest(db.requests, documentId.value, caller, toUserId.value)
    ensures old(db.Valid()) ==> db.Valid()
  {
    if !PresentId(documentId) || !PresentId(toUserId) {
      return Err(BadRequest);
    }
    var guard := ManagedDocument(db.documents, documentId.value, caller);
    if guard.Err? {
      return Err(guard.status);
    }
    if HasPendingRequest(db.requests, documentId.value, caller, toUserId.value) {
      return Err(Conflict);
    }
    var newId := NextId(RequestIds(db.requests));
    var request := ShareRequest(newId, documentId.value, caller, toUserId.value, PendingStatus, now);
    if DistinctBy(db.requests, RequestId) {
      NextIdKeepsDistinct(db.requests, RequestId, request);
    }
    if UniquePendingRequests(db.requests) {
      InsertRequestKeepsPendingUnique(db.requests, request);
    }
    db.requests := db.requests + [request];
    assert request in db.requests;
    r := Ok(());
  }

  // ---------------------------------------------------------------------------
  // Repeated calls

  /** Sharing the same document with the same user again is rejected with 409. */
  method ShareTwice(db: Store, documentId: int, targetUserId: int, caller: int, now: Timestamp)
    returns (first: Reply<()>, second: Reply<()>)
    modifies db
    ensures first.Ok? ==> second == Err(Conflict) && |db.shares| == |old(db.shares)| + 1
  {
    first := ShareDocument(db, documentId, targetUserId, caller, now);
    second := ShareDocument(db, documentId, targetUserId, caller, now);
  }

  /** Unsharing twice answers the same and leaves the same rows as unsharing once. */
  method UnshareTwice(db: Store, documentId: int, targetUserId: int, caller: int)
    returns (first: Reply<()>, second: Reply<()>)
    modifies db
    ensures second == first
    ensures first.Ok? ==> db.shares == WithoutShare(old(db.shares), documentId, targetUserId)
    ensures first.Err? ==> db.shares == old(db.shares)
  {
    first := Unshare(db, documentId, targetUserId, caller);
    second := Unshare(db, documentId, targetUserId, caller);
    if first.Ok? {
      WithoutShareIdempotent(old(db.shares), documentId, targetUserId);
    }
  }
}
