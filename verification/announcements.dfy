/**
 * The announcement service of the high-school management system.
 *
 * State: an announcement store (key -> record, plus the order the store lists
 * its documents in) and a read-only teacher directory (username -> record).
 * Operations: the authentication gate, listing the active announcements, and
 * the three authenticated mutations create, update (a merge-patch) and delete.
 * The current time is a parameter; store keys are produced by a counter.
 */
module Announcements {
  import opened ObjectIds

  datatype Option<T> = None | Some(value: T)

  /** The failures the service raises, one per distinct HTTP error it sends. */
  datatype Error = Unauthenticated | InvalidUser | NoFields | NotFound

  datatype Result<T> = Ok(value: T) | Err(error: Error)

  /** The HTTP status sent for a failure: 401 for the gate, 400 and 404 for the update and delete checks. */
  function Status(e: Error): (code: int)
    ensures code == 401 <==> e.Unauthenticated? || e.InvalidUser?
    ensures code in {400, 401, 404}
  {
    match e
    case Unauthenticated => 401
    case InvalidUser => 401
    case NoFields => 400
    case NotFound => 404
  }

  /** The detail text sent with a failure: always one sentence ending in a full stop. */
  function Detail(e: Error): (text: string)
    ensures |text| > 0 && text[|text| - 1] == '.'
  {
    match e
    case Unauthenticated => "Authentication required."
    case InvalidUser => "Invalid user."
    case NoFields => "No fields to update."
    case NotFound => "Announcement not found."
  }

  /** Every failure is told apart by its detail text, so also by status code and text together. */
  lemma ErrorsDistinguishable(e1: Error, e2: Error)
    requires e1 != e2
    ensures Detail(e1) != Detail(e2)
    ensures Status(e1) != Status(e2) || Detail(e1) != Detail(e2)
  {
  }

  /** A stored announcement: the document without its store key. */
  datatype Record = Record(message: string, expiration: int, startDate: Option<int>)

  /** A document as the store returns it: the record together with its key. */
  datatype Doc = Doc(key: string, record: Record)

  /** An announcement as the service hands it out: the store key renamed to `id`. */
  datatype Announcement = Announcement(id: string, message: string, expiration: int, startDate: Option<int>)

  /** The fields an update supplies; None means "not supplied". */
  datatype Patch = Patch(message: Option<string>, expiration: Option<int>, startDate: Option<int>) {
    predicate IsEmpty() {
      message.None? && expiration.None? && startDate.None?
    }
  }

  predicate NoDup<X(==)>(s: seq<X>) {
    forall i, j :: 0 <= i < j < |s| ==> s[i] != s[j]
  }

  // ---------------------------------------------------------------------------
  // Authentication gate

  /**
   * Resolves the caller's username in the teacher directory.  An absent or
   * empty username is rejected before the directory is consulted.
   */
  function RequireAuth<T>(directory: map<string, T>, username: Option<string>): (r: Result<T>)
    ensures r == Err(Unauthenticated) <==> username.None? || username.value == ""
    ensures r == Err(InvalidUser) <==> username.Some? && username.value != "" && username.value !in directory
    ensures r.Ok? <==> username.Some? && username.value != "" && username.value in directory
    ensures r.Ok? ==> r.value == directory[username.value]
  {
    if username.None? || username.value == "" then Err(Unauthenticated)
    else if username.value !in directory then Err(InvalidUser)
    else Ok(directory[username.value])
  }

  /** Without a username the directory plays no part in the outcome. */
  lemma AuthIgnoresDirectoryWithoutUser<T>(d1: map<string, T>, d2: map<string, T>, username: Option<string>)
    requires username.None? || username.value == ""
    ensures RequireAuth(d1, username) == RequireAuth(d2, username) == Err(Unauthenticated)
  {
  }

  /** The gate looks at the directory entry of the given username and at nothing else. */
  lemma AuthReadsOnlyOwnEntry<T>(d1: map<string, T>, d2: map<string, T>, user: string)
    requires user in d1 <==> user in d2
    requires user in d1 ==> d1[user] == d2[user]
    ensures RequireAuth(d1, Some(user)) == RequireAuth(d2, Some(user))
  {
  }

  // ---------------------------------------------------------------------------
  // Listing

  /** The store's answer to "expiration >= now", in the store's own order. */
  function ActiveDocs(order: seq<string>, store: map<string, Record>, now: int): (r: seq<Doc>)
    ensures forall d :: d in r ==> d.key in order && d.key in store && d.record == store[d.key] && d.record.expiration >= now
    ensures forall k :: k in order && k in store && store[k].expiration >= now ==> Doc(k, store[k]) in r
    ensures NoDup(order) ==> forall i, j :: 0 <= i < j < |r| ==> r[i].key != r[j].key
  {
    if order == [] then []
    else
      var rest := ActiveDocs(order[1..], store, now);
      var k := order[0];
      if k in store && store[k].expiration >= now then [Doc(k, store[k])] + rest else rest
  }

  /** The start date plays no part in which documents are listed. */
  lemma {:induction false} ActiveDocsIgnoresStartDate(order: seq<string>, s1: map<string, Record>, s2: map<string, Record>, now: int)
    requires s1.Keys == s2.Keys
    requires forall k :: k in s1 ==> s1[k].expiration == s2[k].expiration
    ensures |ActiveDocs(order, s1, now)| == |ActiveDocs(order, s2, now)|
    ensures forall i :: 0 <= i < |ActiveDocs(order, s1, now)| ==> ActiveDocs(order, s1, now)[i].key == ActiveDocs(order, s2, now)[i].key
  {
    if order != [] {
      ActiveDocsIgnoresStartDate(order[1..], s1, s2, now);
      var r1, r2 := ActiveDocs(order[1..], s1, now), ActiveDocs(order[1..], s2, now);
      var k := order[0];
      if k in s1 && s1[k].expiration >= now {
        assert ActiveDocs(order, s1, now) == [Doc(k, s1[k])] + r1;
        assert ActiveDocs(order, s2, now) == [Doc(k, s2[k])] + r2;
      } else {
        assert ActiveDocs(order, s1, now) == r1;
        assert ActiveDocs(order, s2, now) == r2;
      }
    }
  }

  /** The record handed out for a document: `_id` removed, `id` set to its key. */
  function Present(d: Doc): (a: Announcement)
    ensures a.id == d.key
    ensures Doc(a.id, Record(a.message, a.expiration, a.startDate)) == d
  {
    Announcement(d.key, d.record.message, d.record.expiration, d.record.startDate)
  }

  // ---------------------------------------------------------------------------
  // Merge-patch

  /**
   * The record after `$set` of the supplied fields: a field changes only to a
   * value the patch supplies, and a start date is never cleared.
   */
  function Merge(r: Record, p: Patch): (m: Record)
    ensures m.message != r.message ==> p.message == Some(m.message)
    ensures m.expiration != r.expiration ==> p.expiration == Some(m.expiration)
    ensures m.startDate != r.startDate ==> p.startDate == m.startDate && m.startDate.Some?
  {
    Record(
      if p.message.Some? then p.message.value else r.message,
      if p.expiration.Some? then p.expiration.value else r.expiration,
      if p.startDate.Some? then p.startDate else r.startDate)
  }

  /** Supplied fields take the new value, the others keep the old one, and no field is cleared. */
  lemma MergeOverwritesOnlySupplied(r: Record, p: Patch)
    ensures p.message.Some? ==> Merge(r, p).message == p.message.value
    ensures p.message.None? ==> Merge(r, p).message == r.message
    ensures p.expiration.Some? ==> Merge(r, p).expiration == p.expiration.value
    ensures p.expiration.None? ==> Merge(r, p).expiration == r.expiration
    ensures p.startDate.Some? ==> Merge(r, p).startDate == p.startDate
    ensures p.startDate.None? ==> Merge(r, p).startDate == r.startDate
    ensures r.startDate.Some? ==> Merge(r, p).startDate.Some?
  {
  }

  /** Applying the same patch twice changes nothing the first application did not. */
  lemma MergeIdempotent(r: Record, p: Patch)
    ensures Merge(Merge(r, p), p) == Merge(r, p)
  {
  }

  // ---------------------------------------------------------------------------
  // Deletion from the listing order

  function Remove(s: seq<string>, k: string): (r: seq<string>)
    ensures forall x :: x in r <==> x in s && x != k
    ensures NoDup(s) ==> NoDup(r)
  {
    if s == [] then []
    else if s[0] == k then Remove(s[1..], k)
    else
      var rest := Remove(s[1..], k);
      assert NoDup(s) ==> NoDup(s[1..]) && s[0] !in s[1..];
      [s[0]] + rest
  }

  // ---------------------------------------------------------------------------
  // The service

  class AnnouncementService<T> {
    /** The teacher directory; the service only ever reads it. */
    const teachers: map<string, T>
    /** The announcement store. */
    var store: map<string, Record>
    /** The order in which the store lists its documents (insertion order). */
    var order: seq<string>
    /** The counter the next store key is made from. */
    var nextId: nat

    ghost predicate Valid()
      reads this
    {
      && NoDup(order)
      && (forall k :: k in order <==> k in store)
      && (forall k :: k in store ==> IsHex(k) && FromHex(k) < nextId)
    }

    constructor (teachers: map<string, T>)
      ensures Valid()
      ensures this.teachers == teachers && store == map[] && order == []
    {
      this.teachers := teachers;
      store := map[];
      order := [];
      nextId := 0;
    }

    /**
     * Lists every stored announcement whose expiration is at or after `now`,
     * each with its key exposed as `id`.  Needs no authentication and
     * changes nothing.
     */
    method GetAnnouncements(now: int) returns (r: seq<Announcement>)
      requires Valid()
      ensures forall a :: a in r ==>
        a.id in store && a.expiration >= now && store[a.id] == Record(a.message, a.expiration, a.startDate)
      ensures forall k :: k in store && store[k].expiration >= now ==>
        Announcement(k, store[k].message, store[k].expiration, store[k].startDate) in r
      ensures forall i, j :: 0 <= i < j < |r| ==> r[i].id != r[j].id
      ensures |r| == |ActiveDocs(order, store, now)|
      ensures forall i :: 0 <= i < |r| ==> r[i] == Present(ActiveDocs(order, store, now)[i])
    {
      var docs := ActiveDocs(order, store, now);
      r := [];
      for i := 0 to |docs|
        invariant |r| == i
        invariant forall j :: 0 <= j < i ==> r[j] == Present(docs[j])
      {
        r := r + [Present(docs[i])];
      }
      forall a | a in r
        ensures a.id in store && a.expiration >= now && store[a.id] == Record(a.message, a.expiration, a.startDate)
      {
        var j :| 0 <= j < |r| && r[j] == a;
        assert docs[j] in docs;
      }
      forall k | k in store && store[k].expiration >= now
        ensures Announcement(k, store[k].message, store[k].expiration, store[k].startDate) in r
      {
        var d := Doc(k, store[k]);
        assert d in docs;
        var j :| 0 <= j < |docs| && docs[j] == d;
        assert r[j] == Present(d);
      }
    }

    /**
     * Creates an announcement for an authenticated teacher: stores the given
     * fields under an unused key and returns them with that key as `id`.
     */
    method Create(message: string, expiration: int, startDate: Option<int>, username: Option<string>)
      returns (r: Result<Announcement>)
      requires Valid()
      modifies this
      ensures Valid()
      ensures RequireAuth(teachers, username).Err? ==>
        r == Err(RequireAuth(teachers, username).error) && store == old(store) && order == old(order)
      ensures RequireAuth(teachers, username).Ok? ==> r.Ok?
      ensures r.Ok? ==>
        && r.value == Announcement(r.value.id, message, expiration, startDate)
        && r.value.id !in old(store)
        && store == old(store)[r.value.id := Record(message, expiration, startDate)]
        && order == old(order) + [r.value.id]
    {
      var auth := RequireAuth(teachers, username);
      if auth.Err? {
        return Err(auth.error);
      }
      var key := ToHex(nextId);
      FromHexToHex(nextId);
      store := store[key := Record(message, expiration, startDate)];
      order := order + [key];
      nextId := nextId + 1;
      r := Ok(Announcement(key, message, expiration, startDate));
    }

    /**
     * Merge-patches the announcement stored under `id` for an authenticated
     * teacher, then re-reads it.  An empty patch is refused before the store
     * is looked at; a missing key is refused after.
     */
    method Update(id: string, message: Option<string>, expiration: Option<int>, startDate: Option<int>, username: Option<string>)
      returns (r: Result<Announcement>)
      requires Valid()
      modifies this
      ensures Valid() && order == old(order)
      ensures RequireAuth(teachers, username).Err? ==>
        r == Err(RequireAuth(teachers, username).error) && store == old(store)
      ensures RequireAuth(teachers, username).Ok? && message.None? && expiration.None? && startDate.None? ==>
        r == Err(NoFields) && store == old(store)
      ensures RequireAuth(teachers, username).Ok? && !Patch(message, expiration, startDate).IsEmpty() && id !in old(store) ==>
        r == Err(NotFound) && store == old(store)
      ensures RequireAuth(teachers, username).Ok? && !Patch(message, expiration, startDate).IsEmpty() && id in old(store) ==>
        && store == old(store)[id := Merge(old(store)[id], Patch(message, expiration, startDate))]
        && r == Ok(Present(Doc(id, store[id])))
    {
      var auth := RequireAuth(teachers, username);
      if auth.Err? {
        return Err(auth.error);
      }
      var fields := Patch(None, None, None);
      if message.Some? {
        fields := fields.(message := message);
      }
      if expiration.Some? {
        fields := fields.(expiration := expiration);
      }
      if startDate.Some? {
        fields := fields.(startDate := startDate);
      }
      if fields.IsEmpty() {
        return Err(NoFields);
      }
      if id !in store {
        return Err(NotFound);
      }
      store := store[id := Merge(store[id], fields)];
      // The re-read: sequentially, the document just written is still there.
      r := Ok(Present(Doc(id, store[id])));
    }

    /** Deletes the announcement stored under `id` for an authenticated teacher. */
    method Delete(id: string, username: Option<string>) returns (r: Result<bool>)
      requires Valid()
      modifies this
      ensures Valid()
      ensures RequireAuth(teachers, username).Err? ==>
        r == Err(RequireAuth(teachers, username).error) && store == old(store) && order == old(order)
      ensures RequireAuth(teachers, username).Ok? && id !in old(store) ==>
        r == Err(NotFound) && store == old(store) && order == old(order)
      ensures RequireAuth(teachers, username).Ok? && id in old(store) ==>
        r == Ok(true) && store == old(store) - {id} && order == Remove(old(order), id)
    {
      var auth := RequireAuth(teachers, username);
      if auth.Err? {
        return Err(auth.error);
      }
      if id !in store {
        return Err(NotFound);
      }
      store := store - {id};
      order := Remove(order, id);
      r := Ok(true);
    }
  }
}
