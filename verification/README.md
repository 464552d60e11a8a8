# Announcements service — a Dafny model

This project models the announcement endpoints of the high-school management
system (`src/backend/routers/announcements.py`). Announcements have a
message, an expiration time and an optional start date. Anyone may list the
active announcements. Only a teacher known to the teacher directory may
create, update or delete one.

The model is a class, `Announcements.AnnouncementService`, with these parts:

- `store`, a `map<string, Record>` that stands for the announcement collection;
- `order`, the order in which the collection lists its documents (insertion order);
- `nextId`, the counter that new store keys are made from;
- `teachers`, a read-only `map<string, T>` that stands for the teacher collection.
  `T` is the teacher record, which the service never looks inside.

The operations are:

- `RequireAuth`, the authentication gate, as a function over the directory.
- `ActiveDocs`, the store query `expiration >= now`, as a function.
- `GetAnnouncements`, a loop that renames each document's `_id` to `id`.
- `Create`, `Update` and `Delete`, which change the store. Each runs the gate
  first, because in the source the gate is a dependency of the endpoint.

Errors are the datatype `Error`, with `Status` and `Detail` giving the HTTP
status and message the source sends:

- `Unauthenticated`: 401 "Authentication required."
- `InvalidUser`: 401 "Invalid user."
- `NoFields`: 400 "No fields to update."
- `NotFound`: 404 "Announcement not found."

Other modelling choices:

- Timestamps are `int`, and the current time `now` is a parameter.
- A store key is the lower-case hexadecimal form of a counter (`ObjectIds.ToHex`).
  `ObjectIds.FromHex` reads a key back. The object invariant `Valid()` keeps
  every stored key below the counter, so a new key is always unused.
- The module `ObjectIds` describes only this counter encoding. The real store
  key renders as a fixed-width 24-character ObjectId string, which is not modelled.
- The module `Scenarios` holds client methods that combine operations: create
  then list, update only the message, an empty update, delete then list,
  anonymous callers, and creating an exam notice then changing its message.

Two details of the gate follow `src/backend/routers/announcements.py` closely:

- The gate rejects an empty username as well as a missing one, because line 18
  tests `not username`, and `""` is falsy.
- The second 401 is called `InvalidUser`, after the "Invalid user." text on line 22.

## Model

| member | source | states |
|---|---|---|
| `Announcements.RequireAuth` | src/backend/routers/announcements.py:16-23 | Gives Unauthenticated exactly when the username is absent or empty. Gives InvalidUser exactly when a non-empty username is not in the directory. Otherwise gives that user's directory record. |
| `Announcements.AuthIgnoresDirectoryWithoutUser` | src/backend/routers/announcements.py:18-19 | With an absent or empty username, the result is Unauthenticated whatever the directory holds. |
| `Announcements.AuthReadsOnlyOwnEntry` | src/backend/routers/announcements.py:20-23 | The gate's outcome depends only on the directory entry for the given username. |
| `Announcements.Status` | src/backend/routers/announcements.py:18-88 | The contract says the status is 401 exactly for the two gate failures (lines 19 and 22), and is always 400, 401 or 404. The definition gives 400 for an empty update (line 70) and 404 for a missing announcement (lines 75 and 88). |
| `Announcements.Detail` | src/backend/routers/announcements.py:18-88 | The definition gives the detail text the source sends for each failure: "Authentication required." (line 19), "Invalid user." (line 22), "No fields to update." (line 70) and "Announcement not found." (lines 75 and 88). The contract says each is a non-empty sentence ending in a full stop. `ErrorsDistinguishable` proves the texts are pairwise distinct. |
| `Announcements.ErrorsDistinguishable` | src/backend/routers/announcements.py:18-22 | Two different failures never share a detail text, so the two 401 failures are told apart. |
| `Announcements.ActiveDocs` | src/backend/routers/announcements.py:28-31 | Returns exactly the stored documents with expiration >= now, each with its stored record and once per key. A document expiring exactly at now is included. |
| `Announcements.ActiveDocsIgnoresStartDate` | src/backend/routers/announcements.py:29-31 | Two stores that agree on keys and expirations list the same keys in the same order, so the start date plays no part in the filter. |
| `Announcements.Present` | src/backend/routers/announcements.py:33 | The handed-out record has `id` equal to the document's key. The key and the stored fields can be read back from it unchanged, so the rename from `_id` to `id` loses nothing. The same rename is applied to the re-read record at line 77. |
| `Announcements.AnnouncementService.GetAnnouncements` | src/backend/routers/announcements.py:26-34 | Each returned announcement has `id` equal to its store key, the stored message, expiration and start date, and expiration >= now. Every active stored announcement is returned once, in the store's order. The store is not modified. |
| `Announcements.AnnouncementService.Create` | src/backend/routers/announcements.py:37-51 | A gate failure is returned with the store unchanged. Otherwise it adds exactly one record under a previously unused key, holding the given message, expiration and start date (possibly None). It returns that record with `id` set to the new key. Other records are unchanged. |
| `Announcements.AnnouncementService.Update` | src/backend/routers/announcements.py:54-78 | Gate failures come first. Next, an empty patch gives NoFields before any lookup. Next, a missing id gives NotFound. In all three cases the store is unchanged. Otherwise only this record changes, to its merge with the patch, and the re-read post-update record is returned with `id` set. |
| `Announcements.AnnouncementService.Delete` | src/backend/routers/announcements.py:81-89 | A gate failure, or NotFound for a missing id, leaves the store unchanged. Otherwise it removes exactly that key from the store and the listing order, and returns success. |
| `Announcements.Merge` | src/backend/routers/announcements.py:62-73 | The record after `$set` of `update_fields`. A field changes only to a value the update supplies, and a start date is never cleared. |
| `Announcements.MergeOverwritesOnlySupplied` | src/backend/routers/announcements.py:62-72 | Supplied fields take the new value and the other fields keep their old value. A supplied None is impossible, so a start date is never cleared. |
| `Announcements.MergeIdempotent` | src/backend/routers/announcements.py:71-73 | Applying the same `$set` twice gives the same record as applying it once. |
| `Announcements.Remove` | src/backend/routers/announcements.py:86 | After removing a key, the listing order holds exactly the other keys and still has no duplicates. |
| `ObjectIds.ToHex` | src/backend/routers/announcements.py:50 | The string form of a key is a non-empty lower-case hexadecimal string without a leading zero. |
| `ObjectIds.FromHexToHex` | src/backend/routers/announcements.py:49-50 | Reading back the string form of a counter value gives that value. This is what makes each inserted key fresh. |
| `ObjectIds.ToHexInjective` | src/backend/routers/announcements.py:49-50 | Distinct counter values give distinct key strings. This is a fact about the counter encoding only. |
| `Scenarios.CreateThenList` | src/backend/routers/announcements.py:26-51 | An announcement a teacher creates is listed, with its message, expiration and start date, while it has not expired. Its id was not in the store before. |
| `Scenarios.UpdateMessageOnly` | src/backend/routers/announcements.py:54-78 | Updating only the message of an existing announcement succeeds and keeps its expiration and start date. |
| `Scenarios.EmptyPatchBeforeLookup` | src/backend/routers/announcements.py:62-70 | An update with no fields fails with 400 whether or not the id exists, and the store is unchanged. |
| `Scenarios.DeleteThenList` | src/backend/routers/announcements.py:81-89 | Delete succeeds exactly when the caller is authenticated and the id exists. A missing id gives 404. After a delete, the id is no longer stored or listed. |
| `Scenarios.AnonymousCallerRefused` | src/backend/routers/announcements.py:16-19 | Create, update and delete without a username all fail with Unauthenticated, and the store is unchanged. |
| `Scenarios.ExamMoved` | src/backend/routers/announcements.py:37-78 | Creating "Exam Friday" and then changing its message gives the created record with only the message replaced. |

## Left out

- Web framework plumbing is not modelled: the router, the decorators, `Depends` wiring, response models and request type validation. Authentication is an explicit first step in each mutating method.
- Store I/O is not modelled. The store is a map, so query operators, result objects and connectivity failures are gone. Store faults would propagate unclassified in the source.
- Keys are strings throughout. In the source, inserted documents get ObjectId keys, while update and delete query `_id` with the raw path string. That string never equals an ObjectId, so in the code as written, updating or deleting an announcement that `create_announcement` inserted returns 404. The model matches keys uniformly, so `Update`, `Delete` and the scenarios built on them (for example `Scenarios.ExamMoved`) describe the intended behaviour, not what the code does.
- The record `create_announcement` returns has no `_id`. The database driver's `insert_one` also writes `_id` into the dict that the source then returns.
- `datetime.now()` is wall-clock I/O, so `now` is a parameter. Timestamps are plain integers, with no time zones or sub-second precision.
- The store's natural listing order is taken to be insertion order. The source promises no order.
- `Update` is one atomic write followed by a sequential re-read. The race between the two calls under concurrency is not modelled, and neither is the error the source would raise if the re-read found nothing.
- Store key generation is a counter rendered in hexadecimal. Real ObjectIds also hold a timestamp and random bytes; only the freshness of the key is modelled.
- The teacher record is an opaque type parameter, because the service only tests that it exists.
