/** The economics-faculty routes (`/fk_ekonomi`): list, get by id, get by `no`,
    create, update and delete over one faculty store. None of them checks the
    caller's identity. */
module FkEkonomi {
  import opened Common
  import opened Dependencies
  import opened Tables
  import opened Crud

  const DataNotFound: string := "Data not found"
  const NomorExists: string := "Nomor already exists"
  const UpdateFailed: string := "Update failed"
  const DataDeleted: string := "Data deleted successfully"

  /** The list route builds its own filter dict from building and floor only,
      each kept when truthy, and forwards skip and limit unchanged. */
  function GetAllEkonomi(skip: Option<int>, limit: Option<int>, gedung: Option<string>, lantai: Option<int>): (q: ListQuery)
    ensures q.source == EkonomiTable
    ensures q.page == PaginationParams(skip, limit)
    ensures q.filters.Keys <= {Gedung, Lantai}
    ensures Gedung in q.filters <==> TruthyStr(gedung)
    ensures Lantai in q.filters <==> TruthyInt(lantai)
    ensures Gedung in q.filters ==> q.filters[Gedung] == Text(gedung.value)
    ensures Lantai in q.filters ==> q.filters[Lantai] == Number(lantai.value)
  {
    var f0: Filters := map[];
    var f1 := if TruthyStr(gedung) then f0[Gedung := Text(gedung.value)] else f0;
    var filters := if TruthyInt(lantai) then f1[Lantai := Number(lantai.value)] else f1;
    ListQuery(EkonomiTable, Page(ArgOr(skip, DefaultSkip), ArgOr(limit, DefaultLimit)), filters)
  }

  /** The hand-written filter of the list route is the shared filter dependency
      with no faculty and no sub-unit. */
  lemma EkonomiFiltersAreFilterParams(skip: Option<int>, limit: Option<int>, gedung: Option<string>, lantai: Option<int>)
    ensures GetAllEkonomi(skip, limit, gedung, lantai).filters == FilterParams(gedung, lantai, None, None)
  {
  }

  /** Get by id: 404 exactly when no row has that id, else the row itself. */
  function GetEkonomiById(db: FacultyStore, id: int): (r: Response<Record>)
    reads db
    ensures r.HttpError? <==> id !in db.table
    ensures r.HttpError? ==> r == HttpError(404, DataNotFound)
    ensures r.Ok? ==> r.value == db.table[id]
  {
    var data := db.Get(id);
    if data.None? then HttpError(404, DataNotFound) else Ok(data.value)
  }

  /** Get by business key: 404 exactly when no row holds that `no`, else a row holding it. */
  method GetEkonomiByNo(db: FacultyStore, no: int) returns (r: Response<Record>)
    ensures r.HttpError? <==> !KeyTaken(db.table, RecordNo, no)
    ensures r.HttpError? ==> r == HttpError(404, DataNotFound)
    ensures r.Ok? ==> r.value in db.table.Values && r.value.no == no
  {
    var data := db.GetByNo(no);
    if data.None? {
      return HttpError(404, DataNotFound);
    }
    r := Ok(data.value);
  }

  /** Create: 400 with the table untouched when `no` is taken (0 included);
      otherwise the payload is stored under a fresh id. The check is what keeps
      `no` unique, since the store inserts blindly. */
  method CreateEkonomi(db: FacultyStore, dataIn: RecordIn) returns (r: Response<Record>)
    requires db.Valid()
    modifies db
    ensures db.Valid()
    ensures r.HttpError? <==> old(KeyTaken(db.table, RecordNo, dataIn.no))
    ensures r.HttpError? ==> r == HttpError(400, NomorExists) && db.table == old(db.table)
    ensures r.Ok? ==> r.value.id !in old(db.table) && r.value == Stored(r.value.id, dataIn)
    ensures r.Ok? ==> db.table == old(db.table)[r.value.id := r.value]
    ensures old(NoUnique(db.table)) ==> NoUnique(db.table)
  {
    var existing := db.GetByNo(dataIn.no);
    if existing.Some? {
      return HttpError(400, NomorExists);
    }
    ghost var before := db.table;
    var data := db.Create(dataIn);
    if NoUnique(before) {
      InsertKeepsUniqueIff(before, RecordNo, data.id, data);
    }
    r := Ok(data);
  }

  /** Update: 404 for an absent id; 400 "Nomor already exists" exactly when the
      patch carries a truthy `no` that differs from the stored one and is taken;
      400 "Update failed" when the store applies nothing; otherwise the merged
      row. Every error leaves the table untouched. Uniqueness of `no` survives
      every patch whose `no` is omitted or non-zero; a `no` of 0 skips the check
      and duplicates a 0 held by another row. */
  method UpdateEkonomi(db: FacultyStore, id: int, patch: Patch) returns (r: Response<Record>)
    requires db.Valid()
    modifies db
    ensures db.Valid()
    ensures r.HttpError? ==> db.table == old(db.table)
    ensures id !in old(db.table) ==> r == HttpError(404, DataNotFound)
    ensures r == HttpError(400, NomorExists) <==>
      id in old(db.table) && UpdateChecksNo(patch, old(db.table)[id]) && old(KeyTaken(db.table, RecordNo, patch.no.value))
    ensures r.HttpError? && id in old(db.table) ==> r == HttpError(400, NomorExists) || r == HttpError(400, UpdateFailed)
    ensures r.Ok? ==> id in old(db.table) && UpdatedFrom(old(db.table)[id], patch, r.value)
    ensures r.Ok? ==> db.table == old(db.table)[id := r.value]
    ensures old(NoUnique(db.table)) && patch.no != Some(0) ==> NoUnique(db.table)
    ensures r.Ok? && patch.no == Some(0) && old(NoUnique(db.table)) && old(KeyTaken(db.table - {id}, RecordNo, 0))
      ==> !NoUnique(db.table)
  {
    var data := db.Get(id);
    if data.None? {
      return HttpError(404, DataNotFound);
    }
    if TruthyInt(patch.no) && patch.no.value != data.value.no {
      var existing := db.GetByNo(patch.no.value);
      if existing.Some? {
        return HttpError(400, NomorExists);
      }
    }
    ghost var before := db.table;
    var updated := db.Update(id, patch);
    if updated.None? {
      return HttpError(400, UpdateFailed);
    }
    if NoUnique(before) {
      if patch.no != Some(0) {
        GuardedUpdateKeepsNoUnique(before, id, patch, updated.value);
      } else if KeyTaken(before - {id}, RecordNo, 0) {
        var other :| other in before - {id} && before[other].no == 0;
        ZeroNoSkipsGuardAndDuplicates(before, id, other, patch, updated.value);
      }
    }
    r := Ok(updated.value);
  }

  /** Delete: 404 exactly when no row was removed, else a success message; the
      row with that id is gone either way. */
  method DeleteEkonomi(db: FacultyStore, id: int) returns (r: Response<string>)
    requires db.Valid()
    modifies db
    ensures db.Valid()
    ensures r.HttpError? <==> id !in old(db.table)
    ensures r.HttpError? ==> r == HttpError(404, DataNotFound)
    ensures r.Ok? ==> r.value == DataDeleted
    ensures db.table == old(db.table) - {id}
  {
    var success := db.Delete(id);
    if !success {
      return HttpError(404, DataNotFound);
    }
    r := Ok(DataDeleted);
  }

  /** A client of the routes on a fresh table: a create succeeds, repeating it
      is refused as a duplicate `no`, the row reads back as created, a delete
      succeeds, and afterwards both a read and a second delete answer 404. */
  method CreateReadDeleteRoundTrip(dataIn: RecordIn)
    returns (created: Response<Record>, again: Response<Record>, fetched: Response<Record>,
             deleted: Response<string>, gone: Response<Record>, deletedAgain: Response<string>)
    ensures created.Ok? && created.value == Stored(created.value.id, dataIn)
    ensures again == HttpError(400, NomorExists)
    ensures fetched == created
    ensures deleted == Ok(DataDeleted)
    ensures gone == HttpError(404, DataNotFound)
    ensures deletedAgain == HttpError(404, DataNotFound)
  {
    var db := new FacultyStore();
    created := CreateEkonomi(db, dataIn);
    again := CreateEkonomi(db, dataIn);
    fetched := GetEkonomiById(db, created.value.id);
    deleted := DeleteEkonomi(db, created.value.id);
    gone := GetEkonomiById(db, created.value.id);
    deletedAgain := DeleteEkonomi(db, created.value.id);
  }
}
