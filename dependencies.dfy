/** The request dependencies shared by the routers: the placeholder identity,
    the admin role gate, pagination and the equality-filter map. */
module Dependencies {
  import opened Common

  /** The identity dict a route receives; its "role" key may be missing. */
  datatype Identity = Identity(id: int, username: string, role: Option<string>)

  const AdminRole: string := "admin"
  const AdminRequired: string := "Admin privileges required"

  /** Placeholder authentication: the bearer credential is read but not
      validated, and the same admin identity is returned for every credential. */
  function GetCurrentUser(credential: string): (u: Identity)
    ensures u.id == 1 && u.username == "admin"
    ensures u.role == Some(AdminRole)
  {
    Identity(1, "admin", Some(AdminRole))
  }

  /** The role gate: the identity passes unchanged exactly when its role is
      "admin"; anything else, a missing role included, is refused with 403. */
  function GetCurrentAdmin(user: Identity): (r: Response<Identity>)
    ensures r.Ok? <==> user.role == Some(AdminRole)
    ensures r.Ok? ==> r.value == user
    ensures r.HttpError? ==> r.status == 403 && r.detail == AdminRequired
  {
    if user.role != Some(AdminRole) then HttpError(403, AdminRequired) else Ok(user)
  }

  /** Whatever credential arrives, the placeholder identity passes the admin gate,
      so no admin-only route can answer 403 while authentication is a stub. */
  lemma StubIdentityPassesAdminGate(credential: string, other: string)
    ensures GetCurrentAdmin(GetCurrentUser(credential)) == Ok(GetCurrentUser(credential))
    ensures GetCurrentUser(credential) == GetCurrentUser(other)
  {
  }

  /** The skip/limit pair handed to a store's `get_multi`. */
  datatype Page = Page(skip: int, limit: int)

  const DefaultSkip: int := 0
  const DefaultLimit: int := 100

  /** An omitted query parameter takes the given default. */
  function ArgOr(arg: Option<int>, default: int): (v: int)
    ensures arg.Some? ==> v == arg.value
    ensures arg.None? ==> v == default
  {
    if arg.Some? then arg.value else default
  }

  /** Pagination: skip and limit exactly as given, 0 and 100 when omitted.
      Neither is range-checked, so a negative value is passed on too. */
  function PaginationParams(skip: Option<int>, limit: Option<int>): (p: Page)
    ensures skip.Some? ==> p.skip == skip.value
    ensures limit.Some? ==> p.limit == limit.value
    ensures skip.None? ==> p.skip == 0
    ensures limit.None? ==> p.limit == 100
  {
    Page(ArgOr(skip, DefaultSkip), ArgOr(limit, DefaultLimit))
  }

  /** A filter value: the building, faculty and sub-unit are strings, the floor an integer. */
  datatype FilterValue = Text(text: string) | Number(number: int)

  /** An equality-filter dict as handed to a store's `get_multi`. */
  type Filters = map<string, FilterValue>

  const Gedung: string := "gedung"
  const Lantai: string := "lantai"
  const Fk: string := "fk"
  const SubUnit: string := "subUnit"

  /** The four keys a filter dict may carry. */
  const FilterKeys: set<string> := {Gedung, Lantai, Fk, SubUnit}

  /** Filter construction: starting from an empty dict, each argument is added
      under its own key when it is truthy, so floor 0 and empty strings are
      dropped exactly as omitted arguments are. */
  function FilterParams(gedung: Option<string>, lantai: Option<int>, fk: Option<string>, subUnit: Option<string>): (f: Filters)
    ensures f.Keys <= FilterKeys
    ensures Gedung in f <==> TruthyStr(gedung)
    ensures Lantai in f <==> TruthyInt(lantai)
    ensures Fk in f <==> TruthyStr(fk)
    ensures SubUnit in f <==> TruthyStr(subUnit)
    ensures Gedung in f ==> f[Gedung] == Text(gedung.value)
    ensures Lantai in f ==> f[Lantai] == Number(lantai.value)
    ensures Fk in f ==> f[Fk] == Text(fk.value)
    ensures SubUnit in f ==> f[SubUnit] == Text(subUnit.value)
  {
    var f0: Filters := map[];
    var f1 := if TruthyStr(gedung) then f0[Gedung := Text(gedung.value)] else f0;
    var f2 := if TruthyInt(lantai) then f1[Lantai := Number(lantai.value)] else f1;
    var f3 := if TruthyStr(fk) then f2[Fk := Text(fk.value)] else f2;
    if TruthyStr(subUnit) then f3[SubUnit := Text(subUnit.value)] else f3
  }

  /** With no argument truthy the filter dict is empty: no restriction at all. */
  lemma FalsyArgumentsGiveNoFilters(gedung: Option<string>, lantai: Option<int>, fk: Option<string>, subUnit: Option<string>)
    requires !TruthyStr(gedung) && !TruthyInt(lantai) && !TruthyStr(fk) && !TruthyStr(subUnit)
    ensures FilterParams(gedung, lantai, fk, subUnit) == map[]
  {
  }

  /** Floor 0 and empty strings are indistinguishable from omitted arguments. */
  lemma ZeroFloorIsIgnored(gedung: Option<string>, fk: Option<string>, subUnit: Option<string>)
    ensures FilterParams(gedung, Some(0), fk, subUnit) == FilterParams(gedung, None, fk, subUnit)
    ensures FilterParams(Some(""), Some(0), Some(""), Some("")) == map[]
  {
  }
}
