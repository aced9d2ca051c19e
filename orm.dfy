/** The one query shape of the Django ORM that the resolvers depend on: `Model.objects.get(field=value)`. */
module Orm {

  /** What `get` does: return the one matching row, raise DoesNotExist, or raise MultipleObjectsReturned. */
  datatype Lookup = NotFound | Found(index: nat) | Multiple

  /** `get` over a table `rows`, where `key` reads the field being compared. */
  function Get<T>(rows: seq<T>, key: T -> string, v: string): (r: Lookup)
    ensures r.NotFound? <==> forall k :: 0 <= k < |rows| ==> key(rows[k]) != v
    ensures r.Found? ==> r.index < |rows| && key(rows[r.index]) == v
    ensures r.Found? ==> forall k :: 0 <= k < |rows| && k != r.index ==> key(rows[k]) != v
    ensures r.Multiple? ==> exists i, j :: 0 <= i < j < |rows| && key(rows[i]) == v && key(rows[j]) == v
    decreases |rows|
  {
    if rows == [] then NotFound
    else
      var last := |rows| - 1;
      var before := Get(rows[..last], key, v);
      if key(rows[last]) != v then before
      else if before.NotFound? then Found(last)
      else Multiple
  }

  /** The id the database assigns to the next inserted row: one more than the last row's, 1 for an empty table. */
  function NextRowId<T>(rows: seq<T>, idOf: T -> nat): (id: nat)
    ensures id > 0
    ensures rows != [] ==> id == idOf(rows[|rows| - 1]) + 1
  {
    if rows == [] then 1 else idOf(rows[|rows| - 1]) + 1
  }

  /** When ids grow with insertion order, the next id is larger than every id in the table. */
  lemma NextRowIdIsFresh<T>(rows: seq<T>, idOf: T -> nat)
    requires forall i, j :: 0 <= i < j < |rows| ==> idOf(rows[i]) < idOf(rows[j])
    ensures forall k :: 0 <= k < |rows| ==> idOf(rows[k]) < NextRowId(rows, idOf)
  {
  }
}
