/** The user cache of the server: a module-level list that starts out
    `null`, is filled from the users collection on the first read, falls back
    to the empty list when the collection cannot be read, is reloaded after a
    successful insert, and is not touched when a user is saved. */
module UsersService {
  import opened Options
  import Seqs

  /** A user document: the password field holds the bcrypt hash. */
  datatype UserDoc = UserDoc(userId: string, username: string, password: string, favoriteMovies: seq<string>)

  /** A user object held in the cache.  `favoriteMovies` is the one field the
      server changes in place. */
  class User {
    const userId: string
    const username: string
    const password: string
    var favoriteMovies: seq<string>

    constructor (d: UserDoc)
      ensures Doc() == d
    {
      userId, username, password := d.userId, d.username, d.password;
      favoriteMovies := d.favoriteMovies;
    }

    function Doc(): UserDoc
      reads this
    {
      UserDoc(userId, username, password, favoriteMovies)
    }
  }

  function UserDocs(us: seq<User>): (r: seq<UserDoc>)
    reads set u | u in us
    ensures |r| == |us|
    ensures forall i :: 0 <= i < |us| ==> r[i] == us[i].Doc()
  {
    if us == [] then [] else [us[0].Doc()] + UserDocs(us[1..])
  }

  /** When the objects differ from the documents `before` at position `i`
      only, their documents are `before` with position `i` replaced. */
  lemma UserDocsExceptAt(us: seq<User>, i: nat, before: seq<UserDoc>)
    requires i < |us| == |before|
    requires forall k | 0 <= k < |us| && k != i :: us[k].Doc() == before[k]
    ensures UserDocs(us) == before[i := us[i].Doc()]
  {
  }

  // ---------------------------------------------------------------------
  // lookups of the first user with a given id or name

  function UserIndexById(us: seq<User>, id: string): int {
    Seqs.FirstIndex(us, (u: User) => u.userId == id)
  }

  function UserIndexByName(us: seq<User>, name: string): int {
    Seqs.FirstIndex(us, (u: User) => u.username == name)
  }

  function DocIndexById(docs: seq<UserDoc>, id: string): int {
    Seqs.FirstIndex(docs, (d: UserDoc) => d.userId == id)
  }

  function DocIndexByName(docs: seq<UserDoc>, name: string): int {
    Seqs.FirstIndex(docs, (d: UserDoc) => d.username == name)
  }

  /** A lookup over the cached objects finds the same position as the same
      lookup over their documents. */
  lemma IndexesAgree(us: seq<User>, docs: seq<UserDoc>, s: string)
    requires |us| == |docs|
    requires forall i :: 0 <= i < |us| ==> us[i].userId == docs[i].userId && us[i].username == docs[i].username
    ensures UserIndexById(us, s) == DocIndexById(docs, s)
    ensures UserIndexByName(us, s) == DocIndexByName(docs, s)
  {
    Seqs.FirstIndexAgree(us, (u: User) => u.userId == s, docs, (d: UserDoc) => d.userId == s);
    Seqs.FirstIndexAgree(us, (u: User) => u.username == s, docs, (d: UserDoc) => d.username == s);
  }

  /** An update keyed by user id, on the documents: the first
      document with the same `userId` takes the fields of `d`; without such a
      document nothing changes (no upsert). */
  function UpdateOne(docs: seq<UserDoc>, d: UserDoc): seq<UserDoc> {
    var i := DocIndexById(docs, d.userId);
    if i < 0 then docs else docs[i := d]
  }

  /** What an update does, position by position. */
  lemma UpdateOneEffect(docs: seq<UserDoc>, d: UserDoc)
    ensures var r := UpdateOne(docs, d);
      |r| == |docs|
      && (forall i :: 0 <= i < |docs| && docs[i].userId != d.userId ==> r[i] == docs[i])
      && (forall i :: 0 <= i < |docs| && i != DocIndexById(docs, d.userId) ==> r[i] == docs[i])
      && ((forall i :: 0 <= i < |docs| ==> docs[i].userId != d.userId) ==> r == docs)
      && (DocIndexById(docs, d.userId) >= 0 ==>
            DocIndexById(r, d.userId) == DocIndexById(docs, d.userId) && r[DocIndexById(docs, d.userId)] == d)
  {
    var i := DocIndexById(docs, d.userId);
    if i >= 0 {
      var r := docs[i := d];
      Seqs.FirstIndexAgree(r, (x: UserDoc) => x.userId == d.userId, docs, (x: UserDoc) => x.userId == d.userId);
    }
  }

  /** Saving the same user twice stores what saving once stores. */
  lemma UpdateOneIdempotent(docs: seq<UserDoc>, d: UserDoc)
    ensures UpdateOne(UpdateOne(docs, d), d) == UpdateOne(docs, d)
  {
    UpdateOneEffect(docs, d);
  }

  /** A list of user objects just read from the collection: one object per
      document, in order, no object twice; or the empty list when the
      collection could not be read. */
  ghost predicate UsersLoadedFrom(us: seq<User>, docs: seq<UserDoc>, reachable: bool)
    reads set u | u in us
  {
    Seqs.Distinct(us) && if reachable then UserDocs(us) == docs else us == []
  }

  /** The users collection of the database.  `reachable` says whether the
      database operations succeed; `finds` counts the queries made. */
  class UserCollection {
    var documents: seq<UserDoc>
    var reachable: bool
    ghost var finds: nat

    constructor (documents: seq<UserDoc>, reachable: bool)
      ensures this.documents == documents && this.reachable == reachable && finds == 0
    {
      this.documents, this.reachable := documents, reachable;
      finds := 0;
    }

    /** `collection.find({}).toArray()`: one new object per document, or
        `None` when the database fails. */
    method Find() returns (found: Option<seq<User>>)
      modifies this`finds
      ensures finds == old(finds) + 1
      ensures found.Some? == reachable
      ensures found.Some? ==> UsersLoadedFrom(found.value, documents, true)
      ensures found.Some? ==> forall u :: u in found.value ==> fresh(u)
    {
      finds := finds + 1;
      if !reachable {
        return None;
      }
      var us: seq<User> := [];
      for i := 0 to |documents|
        invariant finds == old(finds) + 1
        invariant |us| == i
        invariant forall k :: 0 <= k < i ==> us[k].Doc() == documents[k]
        invariant forall u :: u in us ==> fresh(u)
        invariant Seqs.Distinct(us)
      {
        var u := new User(documents[i]);
        us := us + [u];
      }
      found := Some(us);
    }

    /** `collection.insertOne(d)`. */
    method InsertOne(d: UserDoc) returns (ok: bool)
      modifies this`documents
      ensures ok == reachable
      ensures documents == if ok then old(documents) + [d] else old(documents)
    {
      ok := reachable;
      if ok {
        documents := documents + [d];
      }
    }

    /** The update by user id that `saveUser` issues. */
    method UpdateOneDoc(d: UserDoc) returns (ok: bool)
      modifies this`documents
      ensures ok == reachable
      ensures documents == if ok then UpdateOne(old(documents), d) else old(documents)
    {
      ok := reachable;
      if ok {
        documents := UpdateOne(documents, d);
      }
    }
  }

  class UserCache {
    var cachedUsers: Option<seq<User>>
    const backend: UserCollection

    /** Every load creates one object per document, so no object is cached
        twice; the in-place update of one user relies on this. */
    ghost predicate Valid()
      reads this
    {
      cachedUsers.Some? ==> Seqs.Distinct(cachedUsers.value)
    }

    constructor (backend: UserCollection)
      ensures Valid() && this.backend == backend && cachedUsers == None
    {
      this.backend := backend;
      cachedUsers := None;
    }

    /** The user objects the cache holds now. */
    function Loaded(): set<User>
      reads this
    {
      if cachedUsers.Some? then set u | u in cachedUsers.value else {}
    }

    /** The documents of the users that the next `getUsers` returns. */
    ghost function NextSnapshot(): seq<UserDoc>
      reads this, backend, Loaded()
    {
      if cachedUsers.Some? then UserDocs(cachedUsers.value)
      else if backend.reachable then backend.documents
      else []
    }

    /** A step that writes neither the cache, nor its collection, nor a
        cached user leaves the next snapshot as it was. */
    twostate lemma SnapshotKept()
      requires unchanged(this, backend)
      requires forall u | u in old(Loaded()) :: unchanged(u)
      ensures NextSnapshot() == old(NextSnapshot())
    {
    }

    /** `initializeUsers`: always queries the collection and replaces the
        cache with what it returns, or with `[]` when the query fails; the
        failure is not reported to the caller. */
    method InitializeUsers()
      modifies this`cachedUsers, backend`finds
      ensures Valid()
      ensures backend.finds == old(backend.finds) + 1
      ensures cachedUsers.Some?
      ensures UsersLoadedFrom(cachedUsers.value, backend.documents, backend.reachable)
      ensures forall u :: u in cachedUsers.value ==> fresh(u)
    {
      var found := backend.Find();
      match found
      case Some(us) => cachedUsers := Some(us);
      case None => cachedUsers := Some([]);
    }

    /** `getUsers`: loads only while the cache is `null`; otherwise returns
        the cached list itself without touching the collection. */
    method GetUsers() returns (us: seq<User>)
      requires Valid()
      modifies this`cachedUsers, backend`finds
      ensures Valid()
      ensures cachedUsers == Some(us)
      ensures UserDocs(us) == old(NextSnapshot())
      ensures old(cachedUsers).Some? ==>
        us == old(cachedUsers).value && backend.finds == old(backend.finds)
      ensures old(cachedUsers).None? ==>
        backend.finds == old(backend.finds) + 1
        && UsersLoadedFrom(us, backend.documents, backend.reachable)
        && forall u :: u in us ==> fresh(u)
    {
      if cachedUsers.None? {
        InitializeUsers();
      }
      us := cachedUsers.value;
    }

    /** `addUser`: inserts the document and, when the insert succeeds,
        reloads the cache from the collection; a failing insert is swallowed
        and leaves the cache as it was. */
    method AddUser(d: UserDoc)
      requires Valid()
      modifies this`cachedUsers, backend`documents, backend`finds
      ensures Valid()
      ensures old(backend.reachable) ==>
        backend.documents == old(backend.documents) + [d]
        && backend.finds == old(backend.finds) + 1
        && cachedUsers.Some?
        && UsersLoadedFrom(cachedUsers.value, backend.documents, true)
        && forall u :: u in cachedUsers.value ==> fresh(u)
      ensures !old(backend.reachable) ==>
        backend.documents == old(backend.documents)
        && backend.finds == old(backend.finds)
        && cachedUsers == old(cachedUsers)
    {
      var ok := backend.InsertOne(d);
      if ok {
        InitializeUsers();
      }
    }

    /** `saveUser`: writes the user's current fields to the collection and
        never assigns the cache (a failure is swallowed). */
    method SaveUser(u: User)
      modifies backend`documents
      ensures backend.documents ==
        if backend.reachable then UpdateOne(old(backend.documents), u.Doc()) else old(backend.documents)
    {
      var ok := backend.UpdateOneDoc(u.Doc());
    }
  }
}
