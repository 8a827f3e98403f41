# Show table of the `shows_api` functions

This project models the in-memory show table behind the `shows_api` HTTP
functions: one list of `Show` records (id, Title, ShowRunner, Genre,
ReleaseYear, NumberOfSeasons, Distributor) and the four handlers that work
on it.

- **GetShows** answers with the list as it is.
- **Create** answers 400 for a null payload. Otherwise it gives the payload
  the id `max existing id + 1`, or 1 on an empty list, whatever id the
  payload carried, and appends it.
- **Delete** answers 404 when no show has the id. Otherwise it removes the
  first show with that id.
- **Update** answers 404 when no show has the id, before it looks at the
  payload. It answers 400 for a null payload or a Title that is null, empty or
  all white space. Otherwise it overwrites all six non-id fields of the first
  show with the id with the payload's values, nulls and zeros included, and
  answers with that show.

Files:

- `wrappers.dfy`: `Option`, which stands for C#'s nullable references.
- `shows.dfy` (module `Shows`): the `Show` record, the queries the handlers
  run (`LargestId`, `NextId`, `FindFirst`, `IsNullOrWhiteSpace`), and for each
  handler a function from the list and the request to the response and the
  new list. Their contracts state what each handler promises. `Replay` serves
  any sequence of requests and carries the table invariant: ids are at least 1
  and pairwise distinct.
- `shows_api.dfy` (module `Api`): class `ShowsApi` with the list as a
  `seq<Show>` field. Its methods change the list step by step as the handlers
  do, keep the table invariant, and are proved to produce exactly the
  response and list of the matching function in `Shows`.

The model follows `shows_api.cs` as written. Update overwrites all six
non-id fields, nulls and zeros included (lines 92-97). Create does not check
Title (lines 48-53) and answers with a plain Ok (line 54). A non-positive id
simply finds no show (lines 62, 77).

## Model

| member | source | states |
|---|---|---|
| `Shows.LargestId` | shows_api.cs:51 | `shows.Max(s => s.Id)` on a non-empty list is an upper bound of every id and is the id of some show |
| `Shows.NextId` | shows_api.cs:51-52 | the new id is 1 on an empty list; otherwise it exceeds every id and is exactly one more than an existing id, so it is the largest id plus one |
| `Shows.FindFirst` | shows_api.cs:62 | `FirstOrDefault(s => s.Id == id)`: a found index holds the id and no earlier show has it; nothing is found only when no show has the id |
| `Shows.IsNullOrWhiteSpace` | shows_api.cs:88 | true exactly for null or for a string whose every character is .NET white space; the empty string is blank |
| `Shows.CreateShow` | shows_api.cs:48-54 | a null payload gives BadRequest and the same list; otherwise the response is the created show, which is appended at the end with every earlier entry in place, keeps the payload's six non-id fields, gets id 1 on an empty list and otherwise one more than the largest existing id; ids stay positive and distinct |
| `Shows.DeleteShow` | shows_api.cs:62-68 | an absent id gives NotFound and the same list; otherwise exactly the first show with the id is removed, the rest keep their order, the length drops by one; on a valid table no show with that id remains and ids stay positive and distinct |
| `Shows.UpdateShow` | shows_api.cs:77-99 | an absent id gives NotFound and a null payload or blank Title gives BadRequest, both with the list unchanged; otherwise the first show with the id gets the payload's six non-id fields and keeps its id and position, every other show is unchanged, and the response is that show; no id anywhere changes |
| `Shows.Handle` | shows_api.cs:34-99 | GetShows returns the list and changes nothing; no handler breaks the table invariant |
| `Shows.Replay` | shows_api.cs:34-99 | any sequence of requests served one after another keeps ids positive and pairwise distinct |
| `Shows.ReachableTablesValid` | shows_api.cs:15 | every table reachable from the initial empty list has positive, pairwise distinct ids |
| `Shows.IdReusedAfterDeletingLargest` | shows_api.cs:51-52 | ids are unique only among present shows: Create, Delete 1, Create on the empty list hands out id 1 twice |
| `Api.ShowsApi.constructor` | shows_api.cs:15 | the list starts empty and valid |
| `Api.ShowsApi.GetShows` | shows_api.cs:34-38 | answers with the current list and changes nothing |
| `Api.ShowsApi.Create` | shows_api.cs:41-55 | response and new list are those of `CreateShow`; on success the list grows by one at the end, earlier entries unchanged, and the new id exceeds every earlier id; the invariant is kept |
| `Api.ShowsApi.Delete` | shows_api.cs:59-69 | response and new list are those of `DeleteShow`; the list is unchanged exactly when the answer is NotFound; afterwards no show has the id; the invariant is kept |
| `Api.ShowsApi.Update` | shows_api.cs:72-100 | response and new list are those of `UpdateShow`; on an error the list is unchanged; on success the returned show has the id and is in the list; the invariant is kept |

## Left out

- HTTP triggers, request and response plumbing: a handler's answer is the `Response` datatype. The text of Delete's confirmation ("Deleted game with id: …") is not modelled; `Deleted(id)` carries only the id.
- Reading the request body and JSON deserialization are a foreign library. The parsed payload is an input of type `Option<Show>`. A body that fails to parse makes the deserializer throw, which the source does not catch; that case is not modelled. How `required Title` and case-insensitive field names are enforced is not modelled either.
- The list is a process-wide static shared by concurrent invocations. The model is one sequential `ShowsApi` instance.
- `NextId` and `Api.ShowsApi.Create` use mathematical integers. The C# `maxId + 1` wraps around at `int.MaxValue` in unchecked arithmetic, and the model does not capture that. In C#, once a show with id `int.MaxValue` is present, every later Create hands out `int.MinValue`, so ids repeat; this takes about 2^31 Creates, since Deletes keep the list small. `Replay` and `ReachableTablesValid` therefore hold only for unbounded integers.
- `Show` is a value, not an object. Update writing the fields of the found object is modelled as replacing the list entry at that index. The model therefore does not capture that the show returned by Create or Update is the same object as the list entry and sees later updates. `List.Remove` matches by reference; since every list entry is a distinct object, removing the found object removes exactly its index, which is what the model does.
- Program.cs (host setup, telemetry, SQL Server connection and retry) is infrastructure wiring and is not part of this model.
- Migrations/20251127170106_RenameClassicToOld.cs is a schema column rename handed to a library. It is not part of this model.
- The unused `_logger` and `_config` fields.
