# Faculty inventory REST API: the request-decision layer

This project models the layer of a faculty/asset inventory REST backend that
sits between HTTP and the record stores, and proves properties of it in Dafny.
The backend records facility data per faculty ("fakultas") and manages users.

The modelled layer has these parts:

- **Request dependencies.** The placeholder identity (`get_current_user`), the
  admin role gate (`get_current_admin`), pagination (`pagination_params`) and
  the equality-filter dict (`filter_params`). These are in `dependencies.dfy`.
- **The economics-faculty router** in `fk_ekonomi.dfy`.
- **The generic faculty router** in `fakultas.dfy`. It has nine list routes,
  the full syariah read/write set and the search placeholder.
- **The user router** in `users.dfy`.

The routers talk to record stores whose code is not part of this model.
`crud.dfy` stands in for them. It has one class per store kind, each holding an
id-to-row map. Each store operation has a body that promises only what the
routes rely on. Where the real store's behaviour is unknown, the body chooses
freely:

- which fresh id `create` assigns;
- which row `get_by_no` finds when several rows share a `no`;
- whether `update` takes effect;
- how `update` merges the non-key fields.

`tables.dfy` holds the row types and the uniqueness invariant on the business
key: `no` for faculty rows, `username` for users. It also holds the lemmas that
decide when that invariant survives a create or an update:

- Inserting a row keeps keys unique exactly when its key is not yet taken. The
  store inserts blindly, so the router's existence check is both necessary and
  sufficient.
- An update keeps `no` unique for every patch whose `no` is omitted or
  non-zero.
- A patch with `no` 0 skips the duplicate check, because 0 is falsy in Python.
  That update duplicates a 0 already held by another row.
- The user update route has no username check. Writing another user's name
  duplicates it.

Python truthiness is written out in `Common.TruthyInt` and `Common.TruthyStr`.
`None` and `0` are falsy for integers; `None` and `""` are falsy for strings.
An omitted optional argument is `None`. Omitted `skip` and `limit` default to 0
and 100.

A handler's HTTPException is `HttpError(status, detail)`, with the source's
status codes and detail strings. Faculty handlers answer "Data not found",
"Nomor already exists", "Update failed" and "Admin privileges required". User
handlers answer "User not found", "Username already exists" and "Update failed".

Three behaviours of the code shape the update contracts:

- The faculty update routes check `no` only when the patch carries a truthy
  `no` that differs from the stored one. A patch that collides in any other way
  is not refused, and a `no` of 0 gets past the check.
- The user update route checks no username at all.
- The syariah update route returns the store's result even when it is nothing.

## Model

| member | source | states |
|---|---|---|
| Dependencies.GetCurrentUser | api/v1/dependencies.py:14-30 | every credential yields the identity with id 1, username "admin" and role "admin" |
| Dependencies.GetCurrentAdmin | api/v1/dependencies.py:32-41 | the identity is returned unchanged exactly when its role is "admin"; any other role, a missing one included, gives 403 "Admin privileges required" |
| Dependencies.StubIdentityPassesAdminGate | api/v1/dependencies.py:22-41 | the placeholder identity is the same for all credentials and always passes the admin gate, so admin routes never answer 403 through it |
| Dependencies.PaginationParams | api/v1/dependencies.py:43-48 | skip and limit are passed on exactly as given, and default to 0 and 100 |
| Dependencies.FilterParams | api/v1/dependencies.py:50-66 | keys come only from gedung, lantai, fk and subUnit; a key is present iff its argument is truthy, and then maps to that exact argument |
| Dependencies.FalsyArgumentsGiveNoFilters | api/v1/dependencies.py:57-66 | when no argument is truthy, absent ones included, the filter dict is empty |
| Dependencies.ZeroFloorIsIgnored | api/v1/dependencies.py:58-65 | floor 0 gives the same filters as an omitted floor; floor 0 with empty strings gives no filter at all |
| FkEkonomi.GetAllEkonomi | api/v1/endpoints/fk_ekonomi.py:12-27 | queries the economics store with skip and limit unchanged and a filter holding only gedung and lantai, each iff truthy and with its exact value |
| FkEkonomi.EkonomiFiltersAreFilterParams | api/v1/endpoints/fk_ekonomi.py:20-24 | the route's hand-built filter equals the shared filter dependency given no fk and no subUnit |
| FkEkonomi.GetEkonomiById | api/v1/endpoints/fk_ekonomi.py:29-35 | 404 "Data not found" iff no row has the id; otherwise the stored row unchanged |
| FkEkonomi.GetEkonomiByNo | api/v1/endpoints/fk_ekonomi.py:37-43 | 404 iff no row holds the `no`; otherwise a stored row whose `no` is the one asked for |
| FkEkonomi.CreateEkonomi | api/v1/endpoints/fk_ekonomi.py:45-54 | 400 "Nomor already exists" with the table unchanged iff the `no` is taken; otherwise the payload is inserted under a fresh id; `no`-uniqueness is preserved |
| FkEkonomi.UpdateEkonomi | api/v1/endpoints/fk_ekonomi.py:56-73 | 404 for an absent id; 400 "Nomor already exists" iff a truthy, different, taken `no` is supplied; for a present id the only other error is 400 "Update failed", when the store applies nothing; no mutation on any error; uniqueness kept for an omitted or non-zero `no`, broken by a `no` of 0 held elsewhere |
| FkEkonomi.DeleteEkonomi | api/v1/endpoints/fk_ekonomi.py:75-82 | 404 iff nothing was removed, otherwise "Data deleted successfully"; the id is absent afterwards |
| FkEkonomi.CreateReadDeleteRoundTrip | api/v1/endpoints/fk_ekonomi.py:29-82 | on a fresh table: create succeeds, a repeated create is 400, the row reads back as created, delete succeeds, then both a read and a second delete are 404 |
| Fakultas.GetAllFaculty | api/v1/endpoints/fakultas.py:96-176 | each faculty's list route hands its pagination and filters unchanged to that faculty's store |
| Fakultas.FacultyListFromQuery | api/v1/endpoints/fakultas.py:35-42 | from raw query parameters, the store sees the given skip and limit (defaults 0 and 100) and filters over the four columns only |
| Fakultas.GetSyariahById | api/v1/endpoints/fakultas.py:44-53 | 404 "Data not found" iff the id is absent; otherwise the stored row |
| Fakultas.CreateSyariah | api/v1/endpoints/fakultas.py:55-64 | 403 for a non-admin caller; for an admin, 400 iff the `no` is taken; no mutation on error; otherwise a fresh insert; `no`-uniqueness is preserved |
| Fakultas.UpdateSyariah | api/v1/endpoints/fakultas.py:66-82 | 403 for a non-admin; 404 for an absent id; 400 iff a truthy, different, taken `no` is supplied; for an admin, a present id and a patch past that check, always a success; no "Update failed" branch, so an empty store answer is returned as is; same uniqueness behaviour as the economics route, 0 bypass included |
| Fakultas.DeleteSyariah | api/v1/endpoints/fakultas.py:84-93 | 403 for a non-admin with no mutation; for an admin, 404 iff nothing was removed, otherwise a success message |
| Fakultas.SearchAllFaculties | api/v1/endpoints/fakultas.py:178-189 | reads no store and always replies "Search feature coming soon" with the query echoed |
| Users.GetAllUsers | api/v1/endpoints/users.py:8-15 | queries the user store with skip and limit unchanged; the defaults are 0 and 100; no filters |
| Users.UserPagingIsPaginationParams | api/v1/endpoints/users.py:9-12 | the route's own defaults agree with the shared pagination dependency |
| Users.GetUser | api/v1/endpoints/users.py:17-23 | 404 "User not found" iff the id is absent; otherwise the stored user |
| Users.CreateUser | api/v1/endpoints/users.py:25-33 | 400 "Username already exists" with no mutation iff the name is taken; otherwise a fresh insert; username uniqueness is preserved |
| Users.UpdateUser | api/v1/endpoints/users.py:35-46 | 404 for an absent id; 400 "Update failed" when the store applies nothing; no mutation on error; no username check, so a name held by another user is duplicated |
| Users.DeleteUser | api/v1/endpoints/users.py:48-55 | 404 "User not found" iff nothing was removed, otherwise "User deleted successfully" |
| Tables.InsertKeepsUniqueIff | api/v1/endpoints/fk_ekonomi.py:49-53 | inserting under a new id keeps business keys unique iff the key is not yet taken |
| Tables.ReplaceKeepsUniqueIff | api/v1/endpoints/fk_ekonomi.py:64-69 | overwriting a row keeps keys unique iff the new key is the row's own or no other row holds it |
| Tables.GuardedUpdateKeepsNoUnique | api/v1/endpoints/fk_ekonomi.py:63-69 | an update past the guard keeps `no` unique for every omitted or non-zero `no` |
| Tables.ZeroNoSkipsGuardAndDuplicates | api/v1/endpoints/fakultas.py:77-82 | a `no` of 0 skips the duplicate check, and when another row holds 0 the update breaks uniqueness |
| Tables.ZeroNoDuplicateExists | api/v1/endpoints/fk_ekonomi.py:64-69 | there is a unique table and a `no`-0 patch that gets past the guard and breaks uniqueness |
| Tables.UsernameUpdateCanDuplicate | api/v1/endpoints/users.py:42 | writing another user's name breaks username uniqueness |
| Crud.FacultyStore.Get | api/v1/endpoints/fk_ekonomi.py:32 | the store's `get`: the row with that id iff there is one |
| Crud.FacultyStore.GetByNo | api/v1/endpoints/fk_ekonomi.py:49 | the store's `get_by_no`: some row with that `no` iff one exists |
| Crud.FacultyStore.Create | api/v1/endpoints/fk_ekonomi.py:53 | the store's `create`: inserts under a fresh id without looking at `no` |
| Crud.FacultyStore.Update | api/v1/endpoints/fk_ekonomi.py:69 | the store's `update`: nothing for an absent id; otherwise nothing or the merged row, which keeps its id and takes a supplied `no` |
| Crud.FacultyStore.Delete | api/v1/endpoints/fk_ekonomi.py:78 | the store's `delete`: removes the row and reports whether one existed |
| Crud.UserStore.Get | api/v1/endpoints/users.py:20 | the user store's `get`: the user with that id iff there is one |
| Crud.UserStore.GetByUsername | api/v1/endpoints/users.py:28 | the user store's `get_by_username`: some user with that name iff one exists |
| Crud.UserStore.Create | api/v1/endpoints/users.py:32 | inserts the user under a fresh id without looking at the name |
| Crud.UserStore.Update | api/v1/endpoints/users.py:42 | nothing for an absent id; otherwise nothing or the merged user, which keeps its id and takes a supplied username |
| Crud.UserStore.Delete | api/v1/endpoints/users.py:51 | removes the user and reports whether one existed |

## Left out

- The `crud.*` and `schemas.*` modules are not part of this model. The store
  operations are stand-ins. Record fields beyond `no`, gedung, lantai, fk and
  subUnit are an opaque map.
- Crud.FacultyStore.Update: the merge is constrained only on `id` and `no`. A
  supplied `no` is taken to be written as given. The other fields are left
  unconstrained, because the merge rules are not known. An update that answers
  nothing is assumed to have written nothing; the store's code is not part of
  this model, so that is an assumption, not a fact about it.
- Crud.UserStore.Update: likewise, constrained only on `id` and `username`, and
  an update that answers nothing is assumed to have written nothing.
- Fakultas.UpdateSyariah: the route takes its patch as an untyped dict, so its
  `no` may be any JSON value. Every falsy value (0, 0.0, "", false, null) skips
  the duplicate check, and an explicit null differs from an omitted key. The
  model narrows the patch's `no` to an optional integer: only an omitted `no`
  and 0 are the falsy values it covers, and an explicit null is not told apart
  from an omitted key.
- What `get_multi` answers is left out: its ordering, filtering and paging are
  not known. List routes are modelled by the query they send (`ListQuery`).
- `get_db` is left out. It is connection plumbing with no decision logic.
- `api/v1/api.py` is router wiring only.
- Framework behaviour is left out: routing, `Depends` injection, bearer-token
  extraction, `async` and pydantic validation. Two consequences follow.
  Search's `min_length=2` query validation is not modelled. The syariah update
  returns `Ok(None)` where the framework's response validation would reject an
  empty answer.
- Read routes on the generic faculty router depend on `get_current_user`. It
  never fails and its identity is unused, so those routes take no identity.
- Each handler is assumed to run atomically. The check-then-insert race
  between concurrent requests is a concurrency concern and is not modelled.
- JWT validation and the cross-faculty search are placeholders in the source,
  so there is no behaviour beyond the stubs to model.
- The dakwah faculty has only its list route. Its get, create, update and
  delete routes are announced by a comment (api/v1/endpoints/fakultas.py:105-106)
  but not written, so they are not modelled.
- The tarbiyah to kedokteran faculties have only list routes and no such
  comment. There is nothing else of theirs to model.
