/** The record stores the routers call. Their implementation is not part of
    this model: each operation is given a body over an id-to-row map that
    promises only what the routes rely on, and it chooses freely wherever the
    store's real behaviour is unknown (the id it assigns, which duplicate
    `get_by_no` finds, whether an update takes effect, how a patch is merged). */
module Crud {
  import opened Common
  import opened Tables

  /** Some integer exceeds every id in use, so a fresh id always exists. */
  lemma {:induction false} IdAboveAll(ids: set<int>) returns (b: int)
    ensures forall id :: id in ids ==> id < b
  {
    if x :| x in ids {
      var b' := IdAboveAll(ids - {x});
      b := if x < b' then b' else x + 1;
      forall id | id in ids ensures id < b {
        if id != x {
          assert id in ids - {x};
        }
      }
    } else {
      b := 0;
    }
  }

  /** One faculty table (crud_fk_ekonomi, crud_fk_syariah, ...). */
  class FacultyStore {
    var table: map<int, Record>

    ghost predicate Valid()
      reads this
    {
      WellKeyed(table, RecordId)
    }

    constructor ()
      ensures Valid() && table == map[]
    {
      table := map[];
    }

    /** `get(id)`: the row with that primary key, if any. */
    function Get(id: int): (r: Option<Record>)
      reads this
      ensures r.Some? <==> id in table
      ensures r.Some? ==> r.value == table[id]
    {
      if id in table then Some(table[id]) else None
    }

    /** `get_by_no(no)`: some row whose `no` is the one asked for, if any. */
    method GetByNo(no: int) returns (r: Option<Record>)
      ensures r.Some? <==> KeyTaken(table, RecordNo, no)
      ensures r.Some? ==> r.value in table.Values && r.value.no == no
    {
      if id :| id in table && table[id].no == no {
        r := Some(table[id]);
      } else {
        r := None;
      }
    }

    /** `create(data)`: inserts the payload under a fresh id and returns the row.
        It does not look at `no`. */
    method Create(data: RecordIn) returns (rec: Record)
      requires Valid()
      modifies this
      ensures Valid()
      ensures rec.id !in old(table) && rec == Stored(rec.id, data)
      ensures table == old(table)[rec.id := rec]
    {
      ghost var above := IdAboveAll(table.Keys);
      assert above !in table;
      var id :| id !in table;
      rec := Stored(id, data);
      table := table[id := rec];
    }

    /** `update(id, patch)`: nothing for an absent id; otherwise either nothing,
        with the table untouched, or the merged row, which replaces the old one. */
    method Update(id: int, patch: Patch) returns (r: Option<Record>)
      requires Valid()
      modifies this
      ensures Valid()
      ensures r.Some? ==> id in old(table) && UpdatedFrom(old(table)[id], patch, r.value)
      ensures r.Some? ==> table == old(table)[id := r.value]
      ensures r.None? ==> table == old(table)
    {
      if id !in table {
        return None;
      }
      var before := table[id];
      assert before.id == id;
      var merged := before.(no := if patch.no.Some? then patch.no.value else before.no);
      assert Some(merged).Some? && UpdatedFrom(before, patch, Some(merged).value);
      var outcome: Option<Record> :| outcome.None? || UpdatedFrom(before, patch, outcome.value);
      if outcome.Some? {
        assert UpdatedFrom(before, patch, outcome.value);
        assert outcome.value.id == id;
        table := table[id := outcome.value];
      }
      r := outcome;
    }

    /** `delete(id)`: removes the row and reports whether there was one. */
    method Delete(id: int) returns (success: bool)
      requires Valid()
      modifies this
      ensures Valid()
      ensures success <==> id in old(table)
      ensures table == old(table) - {id}
    {
      success := id in table;
      table := table - {id};
    }
  }

  /** The user table (crud_user). */
  class UserStore {
    var table: map<int, User>

    ghost predicate Valid()
      reads this
    {
      WellKeyed(table, UserId)
    }

    constructor ()
      ensures Valid() && table == map[]
    {
      table := map[];
    }

    function Get(id: int): (r: Option<User>)
      reads this
      ensures r.Some? <==> id in table
      ensures r.Some? ==> r.value == table[id]
    {
      if id in table then Some(table[id]) else None
    }

    /** `get_by_username(name)`: some user with that name, if any. */
    method GetByUsername(name: string) returns (r: Option<User>)
      ensures r.Some? <==> KeyTaken(table, Username, name)
      ensures r.Some? ==> r.value in table.Values && r.value.username == name
    {
      if id :| id in table && table[id].username == name {
        r := Some(table[id]);
      } else {
        r := None;
      }
    }

    method Create(data: UserIn) returns (user: User)
      requires Valid()
      modifies this
      ensures Valid()
      ensures user.id !in old(table) && user == StoredUser(user.id, data)
      ensures table == old(table)[user.id := user]
    {
      ghost var above := IdAboveAll(table.Keys);
      assert above !in table;
      var id :| id !in table;
      user := StoredUser(id, data);
      table := table[id := user];
    }

    method Update(id: int, patch: UserPatch) returns (r: Option<User>)
      requires Valid()
      modifies this
      ensures Valid()
      ensures r.Some? ==> id in old(table) && UserUpdatedFrom(old(table)[id], patch, r.value)
      ensures r.Some? ==> table == old(table)[id := r.value]
      ensures r.None? ==> table == old(table)
    {
      if id !in table {
        return None;
      }
      var before := table[id];
      assert before.id == id;
      var merged := before.(username := if patch.username.Some? then patch.username.value else before.username);
      assert Some(merged).Some? && UserUpdatedFrom(before, patch, Some(merged).value);
      var outcome: Option<User> :| outcome.None? || UserUpdatedFrom(before, patch, outcome.value);
      if outcome.Some? {
        assert UserUpdatedFrom(before, patch, outcome.value);
        assert outcome.value.id == id;
        table := table[id := outcome.value];
      }
      r := outcome;
    }

    method Delete(id: int) returns (success: bool)
      requires Valid()
      modifies this
      ensures Valid()
      ensures success <==> id in old(table)
      ensures table == old(table) - {id}
    {
      success := id in table;
      table := table - {id};
    }
  }
}
