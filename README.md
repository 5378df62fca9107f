# Space Nomad mission backend — a Dafny model

Space Nomad is a small web backend. It lets clients create and list space
missions stored in a local `missions` table. It also passes through a launch
list fetched from the public SpaceX API. This project models its three pieces
of sequential logic and proves properties of them:

- **The launch-record normaliser** (`MakeApiRequest`, from
  `app/api/make_api_request.py`). A raw upstream record is a `RawLaunch`.
  Each of its keys is a `Field`: an absent key, a key whose value is JSON
  `null`, or a key with a value. Python's `dict.get` treats these three cases
  differently, and `Get` / `GetOr` model that. `ParseMissionData` is the
  source's loop, with `append` and `continue`. It is proved equal to the
  functional specification `Normalized`, the in-order map of the kept records.
  The lemmas about `Normalized` say which records are kept and what each one
  becomes. `BuildParams` is the query-parameter fragment of `make_api_request`.
- **The mission table** (`Crud`, from `app/crud.py`). `MissionTable` is a
  class that holds the rows as a `seq<Mission>` in table order, plus a
  fresh-id source `nextId`. `CreateMission` appends one row. `GetMissions` is
  the offset/limit query and `GetMissionByName` the filter-first query; both
  are functions that read the table.
- **The routes** (`App`, from `app/main.py`). An `HTTPException` is the value
  `Raised(HttpException(code, detail))`. `CreateMission` checks for an
  existing name before inserting, and is proved to keep names unique.
  `ReadRoot`, `GetMissions` and `SpacexLaunches` are the read-only routes.

Assumptions:

- The queries have no `ORDER BY`. The model takes table order to be insertion
  order.
- Ids behave like SQLite's rowid on a table that is never deleted from. The
  first row gets id 1, and each new row gets the last id plus one.
- The constructor models the first start on a fresh database file.
  `create_all` only creates a missing table, so after a restart the old rows
  are still there. Every operation needs only `Valid()`, so the proofs cover
  any table that insertion-only SQLite rowids produce.
- `launch_success` is a `bool` when present, because the upstream API sends a
  boolean. `mission_name` and `details` are strings when present.

The shapes in `Schemas` do not match the source as written. The ORM column is
spelled `descritption` (`app/models.py:37`), and the table has no
`launch_date`, although the request schema has one (`app/schemas.py:37`). So
`models.Mission(**mission.dict())` (`app/crud.py:28`) would be handed keyword
arguments that the ORM class does not accept. The model uses the intended row
shape (id, name, status, description) and does not model `launch_date`.

Methods that change the table (`Crud.MissionTable.CreateMission`,
`App.CreateMission`) state their whole new state with `old(...)`. The queries
are functions that only `reads` the table, so they cannot change it.

## Model

| member | source | states |
|---|---|---|
| `MakeApiRequest.Get` | app/api/make_api_request.py:60-61 | `d.get(key)` is `None` exactly when the key is absent or JSON null, and otherwise the key's value |
| `MakeApiRequest.GetOr` | app/api/make_api_request.py:62 | `d.get("details", default)` gives the default only for an absent key; a JSON null stays `None`; a present value is returned as is |
| `MakeApiRequest.Kept` | app/api/make_api_request.py:60-64 | a record is kept iff both `mission_name` and `launch_success` are present with a value; absent and null are dropped alike, and a `false` flag or an empty name is kept |
| `MakeApiRequest.ToMission` | app/api/make_api_request.py:66-71 | a kept record's name is its `mission_name`; its status is `"Success"` or `"Failure"`, and `"Success"` iff `launch_success` is true; its description is the default when `details` is absent, `None` when it is null, and the value otherwise |
| `MakeApiRequest.Normalized` | app/api/make_api_request.py:58-73 | the output is no longer than the input and every output status is exactly `"Success"` or `"Failure"` |
| `MakeApiRequest.NormalizedConcat` | app/api/make_api_request.py:59-72 | normalising `s + t` gives the normalised `s` followed by the normalised `t`: records are handled one at a time, in input order |
| `MakeApiRequest.NormalizedSingleton` | app/api/make_api_request.py:60-72 | a one-record response gives that record's normalised form if it is kept, and nothing otherwise |
| `MakeApiRequest.DroppedRecordVanishes` | app/api/make_api_request.py:63-64 | a record with an absent or null name or success flag adds no output record wherever it stands |
| `MakeApiRequest.KeptRecordMapsInPlace` | app/api/make_api_request.py:66-72 | a kept record adds exactly its normalised form, between the outputs of the records before and after it |
| `MakeApiRequest.NormalizedMembership` | app/api/make_api_request.py:58-73 | a record is in the output iff it is the normalised form of some kept input record |
| `MakeApiRequest.ExampleFalconOne` | app/api/make_api_request.py:54-73 | `{"mission_name": "Falcon-1", "launch_success": true, "details": "ok"}` becomes `{"name": "Falcon-1", "status": "Success", "description": "ok"}` |
| `MakeApiRequest.ParseMissionData` | app/api/make_api_request.py:54-73 | the loop with `continue` and `append` returns exactly `Normalized` of its input |
| `MakeApiRequest.BuildParams` | app/api/make_api_request.py:36-38 | `api_key` is a parameter iff the argument is truthy, and then its value is the argument; no other key is ever added; `None` and `""` give empty parameters |
| `Crud.FirstIndexWithName` | app/crud.py:61 | the position returned holds a row with that name, or is the row count; no earlier row has that name |
| `Crud.AppendFreshNameKeepsUnique` | app/main.py:93-98 | the table with one row appended has unique names iff the old table had unique names and no old row has the new row's name |
| `Crud.MissionTable.constructor` | app/main.py:40-46 | on a fresh database file the table starts empty, with next id 1 |
| `Crud.MissionTable.CreateMission` | app/crud.py:28-32 | the table becomes the old rows plus exactly one new row; the row's name, status and description are the input's; its id is positive and used by no existing row; ids stay increasing |
| `Crud.MissionTable.GetMissions` | app/crud.py:35-47 | defaults `skip = 0` and `limit = 10`; returns at most `limit` rows; returns the contiguous run of the table starting at position `skip`, of length `min(limit, n - skip)`, and nothing when `skip >= n` |
| `Crud.MissionTable.GetMissionByName` | app/crud.py:50-61 | returns `None` iff no row has that name; otherwise a row with that name such that no earlier row in table order has it |
| `Crud.IdsDistinct` | app/models.py:34 | in a valid table no two rows share an id |
| `Crud.CreateTwice` | app/crud.py:17-32 | `create_mission` does no duplicate check: creating the same mission twice adds two rows with that name and distinct ids, so names are no longer unique |
| `App.ReadRoot` | app/main.py:49-58 | the body is always `{"message": "Welcome to Space Nomad!"}` and nothing else |
| `App.GetMissions` | app/main.py:61-73 | GET /missions/ returns the first `min(10, n)` rows of the table in table order |
| `App.CreateMission` | app/main.py:76-99 | an existing name gives error 400 `"Mission already exists"` and leaves the table unchanged; a new name adds exactly one row with the input's fields and a fresh id, and returns it; names unique before means names unique after |
| `App.CreateSameNameTwice` | app/main.py:92-99 | posting the same new mission twice creates it once and rejects the second request with 400 |
| `App.SpacexLaunches` | app/main.py:102-117 | the payload is returned iff it is present and non-empty; otherwise error 404 `"SpaceX launches not found!"` |

## Left out

- HTTP and network I/O in `make_api_request`: the GET request, the timeout of
  10, the status-code check, JSON decoding, the exception handling and the
  printed messages. Only the parameter-building fragment is modelled.
- `app/api/nasa.py` and `app/api/spacex.py`. They only send a request when
  imported. `app/main.py` calls `spacex.get_spacex_launches`, which
  `app/api/spacex.py` does not define. The launch payload of
  `App.SpacexLaunches` is therefore an abstract input: `None` for "no data",
  or a list of launch objects.
- App.SpacexLaunches: Python truthiness is modelled for a list payload (empty
  means falsy); a dictionary payload is not distinguished.
- `app/database.py`: engine and session configuration only. The sessionmaker
  there is given `bird=engine`, a misspelling of `bind`.
- FastAPI wiring: `Depends`, the `get_db` session lifecycle, the mechanics of
  `HTTPException`, and pydantic's validation of request bodies. This includes
  filling in the default description when a request omits it.
- `launch_date`: the request schema has it and the table does not; see above.
- Crud.MissionTable.GetMissions: `skip` and `limit` are natural numbers; the
  negative values SQL would also accept are not modelled, and the route only
  passes the defaults.
- Crud.MissionTable.CreateMission: the 64-bit limit on SQLite row ids is not
  modelled, and ids are unbounded integers.
- MakeApiRequest.ToMission: only boolean `launch_success` values are
  modelled, so the Python truthiness of other JSON values in
  `"Success" if status else "Failure"` is not.
- The code has no upsert by name, no date or keyword filters, no page/size
  listing and no synchroniser, and the model adds none.
- The check-then-insert race in `App.CreateMission` under concurrent requests.
  The model is sequential.
