/**
 * The category and tag tables of the store (one table per entity, same shape): rows
 * keyed by an auto-incremented id, with the name as a unique column.
 */
module Store {
  import opened Wrappers
  import opened Tables
  import opened Query

  /** No two rows share a name. */
  predicate UniqueNames(rows: map<nat, Named>)
  {
    forall i, j :: i in rows && j in rows && rows[i].name == rows[j].name ==> i == j
  }

  datatype Table = Table(rows: map<nat, Named>, nextId: nat) {

    /** Every row sits under its own id, below the next id to hand out, and names are unique. */
    predicate Valid()
    {
      && (forall id :: id in rows ==> 1 <= id < nextId && rows[id].id == id)
      && UniqueNames(rows)
      && nextId >= 1
    }

    /** The rows in ascending id order, as the store scans them. */
    function Rows(): seq<Named>
    {
      Ascending(rows, nextId)
    }

    /** The sequence view holds exactly the stored rows. */
    lemma RowsMembers()
      requires Valid()
      ensures forall x :: x in Rows() <==> x.id in rows && rows[x.id] == x
    {
      forall x ensures x in Rows() <==> x.id in rows && rows[x.id] == x {
        AscendingMembers(rows, nextId, x);
      }
    }

    /** `findUnique({ where: { name } })`. */
    function ByName(name: string): (r: Option<Named>)
      requires Valid()
      ensures r.Some? ==> r.value.id in rows && rows[r.value.id] == r.value && r.value.name == name
      ensures r.None? ==> forall id :: id in rows ==> rows[id].name != name
    {
      RowsMembers();
      FirstWhere(Rows(), (x: Named) => x.name == name)
    }

    /** `findFirst({ where: { name, NOT: { id } } })`: a row other than `id` that holds `name`. */
    function HeldByOther(name: string, id: int): (r: Option<Named>)
      requires Valid()
      ensures r.Some? ==> r.value.id in rows && rows[r.value.id] == r.value && r.value.name == name && r.value.id != id
      ensures r.None? ==> forall k :: k in rows && k != id ==> rows[k].name != name
    {
      RowsMembers();
      FirstWhere(Rows(), (x: Named) => x.name == name && x.id != id)
    }

    /** `create({ data: { name } })` at time `now`: the new row takes the next id. */
    function Inserted(name: string, now: int): (t: Table)
      requires Valid()
      requires forall id :: id in rows ==> rows[id].name != name
      ensures t.Valid()
      ensures nextId !in rows
      ensures t.rows == rows[nextId := Named(nextId, name, now, now)]
      ensures t.rows.Keys == rows.Keys + {nextId}
    {
      Table(rows[nextId := Named(nextId, name, now, now)], nextId + 1)
    }

    /** A created row comes last in id order, after all the rows that were there. */
    lemma InsertedRows(name: string, now: int)
      requires Valid()
      requires forall id :: id in rows ==> rows[id].name != name
      ensures Inserted(name, now).Rows() == Rows() + [Named(nextId, name, now, now)]
    {
      AscendingInsert(rows, nextId, Named(nextId, name, now, now));
    }

    /** `update({ where: { id }, data: { name } })` at time `now`. */
    function Renamed(id: nat, name: string, now: int): (t: Table)
      requires Valid()
      requires id in rows
      requires forall k :: k in rows && k != id ==> rows[k].name != name
      ensures t.Valid()
      ensures t.rows.Keys == rows.Keys
      ensures t.rows[id] == rows[id].(name := name, updatedAt := now)
      ensures forall k :: k in rows && k != id ==> t.rows[k] == rows[k]
    {
      Table(rows[id := rows[id].(name := name, updatedAt := now)], nextId)
    }
  }

  /** An empty table. */
  const Empty := Table(map[], 1)

  /** The store's delegate for one table (`prisma.category` or `prisma.tag`). */
  class NamedStore {
    var rows: map<nat, Named>
    var nextId: nat

    function Snapshot(): Table
      reads this
    {
      Table(rows, nextId)
    }

    predicate Valid()
      reads this
    {
      Snapshot().Valid()
    }

    constructor ()
      ensures Valid() && Snapshot() == Empty
    {
      rows := map[];
      nextId := 1;
    }

    method FindUniqueByName(name: string) returns (r: Option<Named>)
      requires Valid()
      ensures r == Snapshot().ByName(name)
    {
      r := Snapshot().ByName(name);
    }

    method FindUniqueById(id: int) returns (r: Option<Named>)
      ensures r == ById(Snapshot().rows, id)
    {
      r := ById(Snapshot().rows, id);
    }

    method FindFirstHeldByOther(name: string, id: int) returns (r: Option<Named>)
      requires Valid()
      ensures r == Snapshot().HeldByOther(name, id)
    {
      r := Snapshot().HeldByOther(name, id);
    }

    method Create(name: string, now: int) returns (row: Named)
      requires Valid()
      requires forall id :: id in rows ==> rows[id].name != name
      modifies this
      ensures Valid()
      ensures Snapshot() == old(Snapshot()).Inserted(name, now)
      ensures row == Named(old(nextId), name, now, now)
    {
      row := Named(nextId, name, now, now);
      rows := rows[nextId := row];
      nextId := nextId + 1;
    }

    method Update(id: nat, name: string, now: int) returns (row: Named)
      requires Valid()
      requires id in rows
      requires forall k :: k in rows && k != id ==> rows[k].name != name
      modifies this
      ensures Valid()
      ensures Snapshot() == old(Snapshot()).Renamed(id, name, now)
      ensures row == Snapshot().rows[id]
    {
      row := rows[id].(name := name, updatedAt := now);
      rows := rows[id := row];
    }
  }
}
