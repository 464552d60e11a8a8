/**
 * Clients of the announcement service: what a caller can conclude from the
 * operations' contracts alone when it combines them.
 */
module Scenarios {
  import opened Announcements

  /** An announcement created by a teacher is listed until it expires, under an id that was unused. */
  method CreateThenList<T>(svc: AnnouncementService<T>, message: string, expiration: int, startDate: Option<int>,
                           username: Option<string>, now: int)
    returns (created: Result<Announcement>, listed: seq<Announcement>)
    requires svc.Valid()
    requires expiration >= now
    modifies svc
    ensures svc.Valid()
    ensures created.Ok? <==> RequireAuth(svc.teachers, username).Ok?
    ensures created.Ok? ==>
      && created.value in listed
      && created.value.id !in old(svc.store)
      && created.value.message == message
      && created.value.expiration == expiration
      && created.value.startDate == startDate
  {
    created := svc.Create(message, expiration, startDate, username);
    listed := svc.GetAnnouncements(now);
    if created.Ok? {
      var k := created.value.id;
      assert k in svc.store && svc.store[k] == Record(message, expiration, startDate);
    }
  }

  /** Updating only the message leaves the expiration and the start date as they were. */
  method UpdateMessageOnly<T>(svc: AnnouncementService<T>, id: string, message: string, username: Option<string>)
    returns (r: Result<Announcement>)
    requires svc.Valid()
    requires RequireAuth(svc.teachers, username).Ok?
    requires id in svc.store
    modifies svc
    ensures svc.Valid()
    ensures r.Ok?
    ensures r.value.id == id && r.value.message == message
    ensures r.value.expiration == old(svc.store[id].expiration)
    ensures r.value.startDate == old(svc.store[id].startDate)
  {
    r := svc.Update(id, Some(message), None, None, username);
  }

  /** An empty patch is refused as such whether or not the id exists. */
  method EmptyPatchBeforeLookup<T>(svc: AnnouncementService<T>, id: string, username: Option<string>)
    returns (r: Result<Announcement>)
    requires svc.Valid()
    requires RequireAuth(svc.teachers, username).Ok?
    modifies svc
    ensures r == Err(NoFields) && Status(r.error) == 400
    ensures svc.store == old(svc.store)
  {
    r := svc.Update(id, None, None, None, username);
  }

  /** After a successful delete the announcement is listed no more, at any time. */
  method DeleteThenList<T>(svc: AnnouncementService<T>, id: string, username: Option<string>, now: int)
    returns (r: Result<bool>, listed: seq<Announcement>)
    requires svc.Valid()
    modifies svc
    ensures svc.Valid()
    ensures r.Ok? <==> RequireAuth(svc.teachers, username).Ok? && id in old(svc.store)
    ensures RequireAuth(svc.teachers, username).Ok? && id !in old(svc.store) ==> r == Err(NotFound) && Status(r.error) == 404
    ensures r.Ok? ==> id !in svc.store && forall a :: a in listed ==> a.id != id
  {
    r := svc.Delete(id, username);
    listed := svc.GetAnnouncements(now);
  }

  /** Without a username every mutation is refused as unauthenticated and the store is left alone. */
  method AnonymousCallerRefused<T>(svc: AnnouncementService<T>, id: string, message: string, expiration: int)
    returns (c: Result<Announcement>, u: Result<Announcement>, d: Result<bool>)
    requires svc.Valid()
    modifies svc
    ensures c == Err(Unauthenticated) && u == Err(Unauthenticated) && d == Err(Unauthenticated)
    ensures svc.store == old(svc.store) && svc.order == old(svc.order)
  {
    c := svc.Create(message, expiration, None, None);
    u := svc.Update(id, Some(message), Some(expiration), None, None);
    d := svc.Delete(id, None);
  }

  /**
   * "Exam Friday", expiring a week after t, is created; its message is then
   * changed and everything else about it stays.
   */
  method ExamMoved<T>(svc: AnnouncementService<T>, username: Option<string>, t: int)
    returns (created: Result<Announcement>, updated: Result<Announcement>)
    requires svc.Valid()
    requires RequireAuth(svc.teachers, username).Ok?
    modifies svc
    ensures created.Ok? && created.value == Announcement(created.value.id, "Exam Friday", t + 7 * 86400, None)
    ensures updated == Ok(created.value.(message := "Exam moved to Monday"))
  {
    created := svc.Create("Exam Friday", t + 7 * 86400, None, username);
    updated := svc.Update(created.value.id, Some("Exam moved to Monday"), None, None, username);
  }
}
