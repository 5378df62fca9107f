/**
 * The mission-table operations of app/crud.py over an in-memory table.
 *
 * The table holds its rows in table order. The queries have no ORDER BY, so
 * the model assumes table order is insertion order, which is how SQLite
 * returns the rows of a table that is only ever appended to. Ids come from a
 * fresh-id source that behaves like SQLite's rowid on a table without
 * deletions: the first row gets 1, each later row one more than the last.
 */
module Crud {
  import opened Wrappers
  import opened Schemas

  function Min(a: int, b: int): (m: int)
    ensures m <= a && m <= b && (m == a || m == b)
  {
    if a <= b then a else b
  }

  /** Some row of `rows` has the name `name`. */
  ghost predicate HasName(rows: seq<Mission>, name: string) {
    exists i :: 0 <= i < |rows| && rows[i].name == name
  }

  /** No two rows of `rows` share a name. */
  ghost predicate UniqueNames(rows: seq<Mission>) {
    forall i, j :: 0 <= i < |rows| && 0 <= j < |rows| && i != j ==> rows[i].name != rows[j].name
  }

  /** The position of the first row named `name`, or `|rows|` when there is none. */
  function FirstIndexWithName(rows: seq<Mission>, name: string): (k: nat)
    ensures k <= |rows|
    ensures k < |rows| ==> rows[k].name == name
    ensures forall j :: 0 <= j < k ==> rows[j].name != name
  {
    if rows == [] then 0
    else if rows[0].name == name then 0
    else 1 + FirstIndexWithName(rows[1..], name)
  }

  /**
   * Appending a row keeps the names unique exactly when they were unique
   * before and no row has the new row's name yet.
   */
  lemma AppendFreshNameKeepsUnique(rows: seq<Mission>, m: Mission)
    ensures UniqueNames(rows + [m]) <==> UniqueNames(rows) && !HasName(rows, m.name)
  {
    var all := rows + [m];
    assert forall i :: 0 <= i < |rows| ==> all[i] == rows[i];
    if HasName(rows, m.name) {
      var i :| 0 <= i < |rows| && rows[i].name == m.name;
      assert all[i].name == all[|rows|].name;
    }
    if UniqueNames(rows) && !HasName(rows, m.name) {
      forall i, j | 0 <= i < |all| && 0 <= j < |all| && i != j
        ensures all[i].name != all[j].name
      {
        if i == |rows| {
          assert all[j] == rows[j];
        } else if j == |rows| {
          assert all[i] == rows[i];
        }
      }
    }
  }

  class MissionTable {
    var rows: seq<Mission>
    var nextId: int

    /** Ids increase along table order; the next id is one more than the last row's. */
    ghost predicate Valid()
      reads this
    {
      (forall i, j :: 0 <= i < j < |rows| ==> rows[i].id < rows[j].id) &&
      (rows == [] ==> nextId == 1) &&
      (rows != [] ==> rows[0].id >= 1 && nextId == rows[|rows| - 1].id + 1)
    }

    /**
     * An empty `missions` table, as start-up creates it on a fresh database
     * file. Every operation needs only `Valid()`, so the proofs also cover a
     * table that earlier runs have filled.
     */
    constructor ()
      ensures Valid() && rows == []
    {
      rows := [];
      nextId := 1;
    }

    /**
     * `create_mission`: inserts one row built from the request body and
     * assigns it a fresh id. It does not check for an existing name.
     */
    method CreateMission(mission: MissionCreate) returns (created: Mission)
      requires Valid()
      modifies this
      ensures Valid()
      ensures rows == old(rows) + [created]
      ensures created.name == mission.name && created.status == mission.status
      ensures created.description == mission.description
      ensures created.id >= 1
      ensures forall i :: 0 <= i < |old(rows)| ==> old(rows)[i].id != created.id
    {
      created := Mission(nextId, mission.name, mission.status, mission.description);
      rows := rows + [created];
      nextId := nextId + 1;
    }

    /** `get_missions(skip, limit)`: OFFSET `skip` LIMIT `limit` over table order. */
    function GetMissions(skip: nat := 0, limit: nat := 10): (page: seq<Mission>)
      reads this
      ensures |page| <= limit
      ensures |page| == if skip >= |rows| then 0 else Min(limit, |rows| - skip)
      ensures forall k :: 0 <= k < |page| ==> page[k] == rows[skip + k]
    {
      if skip >= |rows| then [] else rows[skip..skip + Min(limit, |rows| - skip)]
    }

    /** `get_mission_by_name`: the first row in table order with that name, if any. */
    function GetMissionByName(name: string): (found: Option<Mission>)
      reads this
      ensures found.None? <==> !HasName(rows, name)
      ensures found.Some? ==> exists k :: 0 <= k < |rows| && rows[k] == found.value && rows[k].name == name &&
                                          forall j :: 0 <= j < k ==> rows[j].name != name
    {
      var k := FirstIndexWithName(rows, name);
      if k < |rows| then Some(rows[k]) else None
    }
  }

  /** Ids of a valid table are pairwise distinct. */
  lemma IdsDistinct(t: MissionTable, i: int, j: int)
    requires t.Valid()
    requires 0 <= i < |t.rows| && 0 <= j < |t.rows| && i != j
    ensures t.rows[i].id != t.rows[j].id
  {
  }

  /**
   * `create_mission` alone does not keep names unique: two creations with
   * the same body leave two rows with that name, with distinct ids.
   */
  method CreateTwice(t: MissionTable, mission: MissionCreate) returns (first: Mission, second: Mission)
    requires t.Valid()
    modifies t
    ensures t.Valid()
    ensures t.rows == old(t.rows) + [first, second]
    ensures first.name == second.name == mission.name && first.id != second.id
    ensures !UniqueNames(t.rows)
  {
    first := t.CreateMission(mission);
    second := t.CreateMission(mission);
    assert t.rows[|t.rows| - 2] == first && t.rows[|t.rows| - 1] == second;
  }
}
