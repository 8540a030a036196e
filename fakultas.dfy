/** The generic faculty routes (`/fakultas/...`): a list route for each of nine
    faculties, the full read/write set for syariah, and the search placeholder.
    Reads depend on `get_current_user`, which never fails and whose identity
    they do not use; writes depend on `get_current_admin`, so each write
    handler receives the resolved identity and passes it through the gate first. */
module Fakultas {
  import opened Common
  import opened Dependencies
  import opened Tables
  import opened Crud

  const DataNotFound: string := "Data not found"
  const NomorExists: string := "Nomor already exists"
  const DataDeleted: string := "Data deleted successfully"
  const SearchComingSoon: string := "Search feature coming soon"

  /** Each faculty's list route hands its resolved pagination and filter
      dependencies, unchanged, to that faculty's store. */
  function GetAllFaculty(faculty: Faculty, pagination: Page, filters: Filters): (q: ListQuery)
    ensures q.source == FakultasTable(faculty)
    ensures q.page == pagination && q.filters == filters
  {
    ListQuery(FakultasTable(faculty), pagination, filters)
  }

  /** The list routes from the raw query parameters to the store call: the page
      is the given skip and limit (0 and 100 when omitted), and the filters name
      only the four filterable columns, each exactly when its argument is truthy. */
  lemma FacultyListFromQuery(faculty: Faculty, skip: Option<int>, limit: Option<int>,
                             gedung: Option<string>, lantai: Option<int>, fk: Option<string>, subUnit: Option<string>)
    ensures var q := GetAllFaculty(faculty, PaginationParams(skip, limit), FilterParams(gedung, lantai, fk, subUnit));
      && q.source == FakultasTable(faculty)
      && q.page.skip == ArgOr(skip, 0) && q.page.limit == ArgOr(limit, 100)
      && q.filters.Keys <= FilterKeys
      && (Lantai in q.filters <==> TruthyInt(lantai))
  {
  }

  /** Get by id: 404 exactly when no row has that id, else the row itself. */
  function GetSyariahById(db: FacultyStore, id: int): (r: Response<Record>)
    reads db
    ensures r.HttpError? <==> id !in db.table
    ensures r.HttpError? ==> r == HttpError(404, DataNotFound)
    ensures r.Ok? ==> r.value == db.table[id]
  {
    var data := db.Get(id);
    if data.None? then HttpError(404, DataNotFound) else Ok(data.value)
  }

  /** Create (admin only): 403 for a non-admin caller and 400 for a taken `no`,
      both with the table untouched; otherwise the payload is stored under a
      fresh id, so `no` stays unique. */
  method CreateSyariah(db: FacultyStore, dataIn: RecordIn, caller: Identity) returns (r: Response<Record>)
    requires db.Valid()
    modifies db
    ensures db.Valid()
    ensures caller.role != Some(AdminRole) ==> r == HttpError(403, AdminRequired)
    ensures r.HttpError? ==> db.table == old(db.table)
    ensures caller.role == Some(AdminRole) ==>
      (r.HttpError? <==> old(KeyTaken(db.table, RecordNo, dataIn.no)))
    ensures caller.role == Some(AdminRole) && r.HttpError? ==> r == HttpError(400, NomorExists)
    ensures r.Ok? ==> r.value.id !in old(db.table) && r.value == Stored(r.value.id, dataIn)
    ensures r.Ok? ==> db.table == old(db.table)[r.value.id := r.value]
    ensures old(NoUnique(db.table)) ==> NoUnique(db.table)
  {
    var gate := GetCurrentAdmin(caller);
    if gate.HttpError? {
      return HttpError(gate.status, gate.detail);
    }
    var existing := db.GetByNo(dataIn.no);
    if existing.Some? {
      return HttpError(400, NomorExists);
    }
    ghost var before := db.table;
    var data := db.Create(dataIn);
    if NoUnique(before) {
      InsertKeepsUniqueIff(before, RecordNo, data.id, data);
    }
    r := Ok(data);
  }

  /** Update (admin only): 403 for a non-admin caller; 404 for an absent id;
      400 exactly when the patch carries a truthy `no` different from the stored
      one that is taken. Unlike the economics route there is no "Update failed"
      branch: the store's answer, possibly nothing, is returned as it is. The
      `no` invariant behaves as on the economics route, 0 bypass included. */
  method UpdateSyariah(db: FacultyStore, id: int, patch: Patch, caller: Identity) returns (r: Response<Option<Record>>)
    requires db.Valid()
    modifies db
    ensures db.Valid()
    ensures caller.role != Some(AdminRole) ==> r == HttpError(403, AdminRequired)
    ensures r.HttpError? ==> db.table == old(db.table)
    ensures caller.role == Some(AdminRole) && id !in old(db.table) ==> r == HttpError(404, DataNotFound)
    ensures caller.role == Some(AdminRole) ==>
      (r == HttpError(400, NomorExists) <==>
        id in old(db.table) && UpdateChecksNo(patch, old(db.table)[id]) && old(KeyTaken(db.table, RecordNo, patch.no.value)))
    ensures caller.role == Some(AdminRole) && id in old(db.table)
      && !(UpdateChecksNo(patch, old(db.table)[id]) && old(KeyTaken(db.table, RecordNo, patch.no.value)))
      ==> r.Ok?
    ensures r == Ok(None) ==> db.table == old(db.table)
    ensures r.Ok? && r.value.Some? ==> id in old(db.table) && UpdatedFrom(old(db.table)[id], patch, r.value.value)
    ensures r.Ok? && r.value.Some? ==> db.table == old(db.table)[id := r.value.value]
    ensures old(NoUnique(db.table)) && patch.no != Some(0) ==> NoUnique(db.table)
    ensures r.Ok? && r.value.Some? && patch.no == Some(0) && old(NoUnique(db.table)) && old(KeyTaken(db.table - {id}, RecordNo, 0))
      ==> !NoUnique(db.table)
  {
    var gate := GetCurrentAdmin(caller);
    if gate.HttpError? {
      return HttpError(gate.status, gate.detail);
    }
    var data := db.Get(id);
    if data.None? {
      return HttpError(404, DataNotFound);
    }
    if TruthyInt(patch.no) && patch.no.value != data.value.no {
      var existing := db.GetByNo(patch.no.value);
      if existing.Some? {
        return HttpError(400, NomorExists);
      }
    }
    ghost var before := db.table;
    var updated := db.Update(id, patch);
    if updated.Some? && NoUnique(before) {
      if patch.no != Some(0) {
        GuardedUpdateKeepsNoUnique(before, id, patch, updated.value);
      } else if KeyTaken(before - {id}, RecordNo, 0) {
        var other :| other in before - {id} && before[other].no == 0;
        ZeroNoSkipsGuardAndDuplicates(before, id, other, patch, updated.value);
      }
    }
    r := Ok(updated);
  }

  /** Delete (admin only): 403 for a non-admin caller with the table untouched;
      otherwise 404 exactly when no row was removed, else a success message. */
  method DeleteSyariah(db: FacultyStore, id: int, caller: Identity) returns (r: Response<string>)
    requires db.Valid()
    modifies db
    ensures db.Valid()
    ensures caller.role != Some(AdminRole) ==> r == HttpError(403, AdminRequired) && db.table == old(db.table)
    ensures caller.role == Some(AdminRole) ==> (r.HttpError? <==> id !in old(db.table))
    ensures caller.role == Some(AdminRole) ==> db.table == old(db.table) - {id}
    ensures caller.role == Some(AdminRole) && r.HttpError? ==> r == HttpError(404, DataNotFound)
    ensures r.Ok? ==> r.value == DataDeleted
  {
    var gate := GetCurrentAdmin(caller);
    if gate.HttpError? {
      return HttpError(gate.status, gate.detail);
    }
    var success := db.Delete(id);
    if !success {
      return HttpError(404, DataNotFound);
    }
    r := Ok(DataDeleted);
  }

  /** The reply of the search placeholder. */
  datatype SearchReply = SearchReply(message: string, query: Option<string>)

  /** Search across faculties is not implemented: whatever the arguments, the
      reply is a fixed message echoing the query, and no store is read. */
  function SearchAllFaculties(query: Option<string>, gedung: Option<string>, lantai: Option<int>): (r: SearchReply)
    ensures r.message == SearchComingSoon
    ensures r.query == query
  {
    SearchReply(SearchComingSoon, query)
  }
}
