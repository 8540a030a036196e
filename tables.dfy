/** The rows the stores hold, the requests a router hands them, and the
    business-key uniqueness invariant (`no` for faculty rows, `username` for
    users) that the create and update routes are meant to keep. */
module Tables {
  import opened Common
  import opened Dependencies

  /** The payload of a faculty-row create request: the caller-assigned sequence
      number `no`, location and organisation fields, and the faculty-specific
      descriptive fields kept opaque. */
  datatype RecordIn = RecordIn(no: int, gedung: string, lantai: int, fk: string, subUnit: string, details: map<string, string>)

  /** A stored faculty row: the payload plus the store-assigned primary key `id`. */
  datatype Record = Record(id: int, no: int, gedung: string, lantai: int, fk: string, subUnit: string, details: map<string, string>)

  /** A partial update: `None` for each field the request does not supply. */
  datatype Patch = Patch(no: Option<int>, gedung: Option<string>, lantai: Option<int>, fk: Option<string>, subUnit: Option<string>)

  /** The payload of a user create request. */
  datatype UserIn = UserIn(username: string, role: string, details: map<string, string>)

  /** A stored user. */
  datatype User = User(id: int, username: string, role: string, details: map<string, string>)

  /** A partial user update. */
  datatype UserPatch = UserPatch(username: Option<string>, role: Option<string>)

  /** The row `create` stores for a payload under the id it assigns. */
  function Stored(id: int, d: RecordIn): (r: Record)
    ensures r.id == id && r.no == d.no
  {
    Record(id, d.no, d.gedung, d.lantai, d.fk, d.subUnit, d.details)
  }

  function StoredUser(id: int, d: UserIn): (u: User)
    ensures u.id == id && u.username == d.username
  {
    User(id, d.username, d.role, d.details)
  }

  function RecordNo(r: Record): int { r.no }
  function Username(u: User): string { u.username }

  /** The store's update merges a patch into a row by rules this model does not
      fix; all it relies on is that the row keeps its id and that a supplied
      `no` is written as given while an omitted one is kept. */
  predicate UpdatedFrom(before: Record, p: Patch, after: Record)
  {
    && after.id == before.id
    && after.no == (if p.no.Some? then p.no.value else before.no)
  }

  /** The same for users: a supplied `username` is written as given. */
  predicate UserUpdatedFrom(before: User, p: UserPatch, after: User)
  {
    && after.id == before.id
    && after.username == (if p.username.Some? then p.username.value else before.username)
  }

  function RecordId(r: Record): int { r.id }
  function UserId(u: User): int { u.id }

  /** Every row is filed under its own primary key. */
  ghost predicate WellKeyed<R>(t: map<int, R>, idOf: R -> int)
  {
    forall id :: id in t ==> idOf(t[id]) == id
  }

  /** Some row's key is `k`: what a successful `get_by_no` / `get_by_username` means. */
  ghost predicate KeyTaken<R, K>(t: map<int, R>, key: R -> K, k: K)
  {
    exists id :: id in t && key(t[id]) == k
  }

  /** No two rows share a business key. */
  ghost predicate UniqueBy<R, K>(t: map<int, R>, key: R -> K)
  {
    forall i, j :: i in t && j in t && i != j ==> key(t[i]) != key(t[j])
  }

  ghost predicate NoUnique(t: map<int, Record>) { UniqueBy(t, RecordNo) }
  ghost predicate UsernameUnique(t: map<int, User>) { UniqueBy(t, Username) }

  /** Inserting a row under a new id keeps the keys unique exactly when its key
      is not taken yet: the router's existence check is both sufficient and
      necessary, since the store itself does not check. */
  lemma InsertKeepsUniqueIff<R, K>(t: map<int, R>, key: R -> K, id: int, r: R)
    requires UniqueBy(t, key) && id !in t
    ensures UniqueBy(t[id := r], key) <==> !KeyTaken(t, key, key(r))
  {
    var t' := t[id := r];
    if KeyTaken(t, key, key(r)) {
      var other :| other in t && key(t[other]) == key(r);
      assert other in t' && id in t' && other != id && key(t'[other]) == key(t'[id]);
    }
  }

  /** Overwriting the row at an existing id keeps the keys unique exactly when
      the new key is the row's own or is held by no other row. */
  lemma ReplaceKeepsUniqueIff<R, K>(t: map<int, R>, key: R -> K, id: int, r: R)
    requires UniqueBy(t, key) && id in t
    ensures UniqueBy(t[id := r], key) <==> (key(r) == key(t[id]) || !KeyTaken(t - {id}, key, key(r)))
  {
    var t' := t[id := r];
    var rest := t - {id};
    if key(r) != key(t[id]) && KeyTaken(rest, key, key(r)) {
      var other :| other in rest && key(rest[other]) == key(r);
      assert other in t' && id in t' && other != id && key(t'[other]) == key(t'[id]);
    } else {
      forall i, j | i in t' && j in t' && i != j ensures key(t'[i]) != key(t'[j]) {
        if i == id {
          assert j in rest;
        } else if j == id {
          assert i in rest;
        }
      }
    }
  }

  /** The guard of the faculty update routes: the duplicate check on `no` runs
      only when the patch supplies a truthy `no` that differs from the stored one. */
  predicate UpdateChecksNo(p: Patch, current: Record)
  {
    TruthyInt(p.no) && p.no.value != current.no
  }

  /** For a patch whose `no` is omitted or non-zero, an
      update that got past the guard (the check did not run, or found `no`
      free) leaves `no` unique. */
  lemma GuardedUpdateKeepsNoUnique(t: map<int, Record>, id: int, p: Patch, after: Record)
    requires NoUnique(t) && id in t
    requires p.no != Some(0)
    requires UpdateChecksNo(p, t[id]) ==> !KeyTaken(t, RecordNo, p.no.value)
    requires UpdatedFrom(t[id], p, after)
    ensures NoUnique(t[id := after])
  {
  }

  /** A patch with `no` 0 skips the guard (0 is falsy), and
      when another row already holds 0 the update duplicates it. */
  lemma ZeroNoSkipsGuardAndDuplicates(t: map<int, Record>, id: int, other: int, p: Patch, after: Record)
    requires NoUnique(t) && id in t && other in t && other != id
    requires t[other].no == 0 && p.no == Some(0)
    requires UpdatedFrom(t[id], p, after)
    ensures !UpdateChecksNo(p, t[id])
    ensures !NoUnique(t[id := after])
  {
    var t' := t[id := after];
    assert other in t' && id in t' && RecordNo(t'[other]) == RecordNo(t'[id]);
  }

  /** The gap is reachable: a unique table and a 0-`no` patch that breaks it. */
  lemma ZeroNoDuplicateExists()
    ensures exists t: map<int, Record>, id: int, after: Record ::
      NoUnique(t) && id in t && !UpdateChecksNo(Patch(Some(0), None, None, None, None), t[id])
      && UpdatedFrom(t[id], Patch(Some(0), None, None, None, None), after) && !NoUnique(t[id := after])
  {
    var a := Record(1, 0, "A", 1, "FEB", "S1", map[]);
    var b := Record(2, 5, "A", 2, "FEB", "S1", map[]);
    var t := map[1 := a, 2 := b];
    var p := Patch(Some(0), None, None, None, None);
    var after := b.(no := 0);
    assert NoUnique(t);
    ZeroNoSkipsGuardAndDuplicates(t, 2, 1, p, after);
    assert NoUnique(t) && 2 in t && !UpdateChecksNo(p, t[2]) && UpdatedFrom(t[2], p, after) && !NoUnique(t[2 := after]);
  }

  /** Users' update has no uniqueness check: writing another user's name breaks
      username uniqueness. */
  lemma UsernameUpdateCanDuplicate(t: map<int, User>, id: int, other: int, p: UserPatch, after: User)
    requires UsernameUnique(t) && id in t && other in t && other != id
    requires p.username == Some(t[other].username)
    requires UserUpdatedFrom(t[id], p, after)
    ensures !UsernameUnique(t[id := after])
  {
    ReplaceKeepsUniqueIff(t, Username, id, after);
    assert other in t - {id} && Username((t - {id})[other]) == Username(after);
  }

  /** The stores a list route can read. */
  datatype Faculty = Syariah | Dakwah | Tarbiyah | Hukum | Psikologi | Mipa | Teknik | IlmuKomputer | Kedokteran
  datatype TableName = EkonomiTable | FakultasTable(faculty: Faculty) | UsersTable

  /** A `get_multi` call: which store, which page and which equality filters.
      What the store answers is its own affair and is not modelled. */
  datatype ListQuery = ListQuery(source: TableName, page: Page, filters: Filters)
}
