/**
 * The `places` table: records with the four fillable attributes, the request input
 * that fills them, and the table itself with its auto-increment id and its unique
 * indexes on `name` and `slug`.
 */
module Models {
  import opened Wrappers

  /** The fillable attributes of a place. */
  datatype Field = Name | Slug | City | State

  /**
   * A value in a request body: JSON null, a string, or any other JSON value
   * (a number, a boolean, a non-empty array or object).
   */
  datatype Value = Null | Text(s: string) | NonString

  /** A request body or service argument: the keys it holds and their values. */
  type Input = map<Field, Value>

  /** A stored row; `slug` is nullable, since an update may set it to null. */
  datatype Place = Place(name: string, slug: Option<string>, city: string, state: string)

  /** A row together with its id, as the list query returns it. */
  datatype Row = Row(id: nat, place: Place)

  datatype StoreError = UniqueViolation

  /** PHP's `isset($data[$f])`: the key is present and its value is not null. */
  predicate IsSet(data: Input, f: Field) {
    f in data && !data[f].Null?
  }

  /** The value of a column of a row; SQL NULL is `None`. */
  function ColumnValue(p: Place, column: Field): Option<string> {
    match column
    case Name => Some(p.name)
    case Slug => p.slug
    case City => Some(p.city)
    case State => Some(p.state)
  }

  /** Some row other than `ignore` holds `value` in `column`. */
  predicate Taken(rows: map<nat, Place>, column: Field, value: string, ignore: Option<nat>) {
    exists id :: id in rows && ignore != Some(id) && ColumnValue(rows[id], column) == Some(value)
  }

  /** No two rows share a name, and no two rows share a non-null slug. */
  ghost predicate UniqueIndexes(rows: map<nat, Place>) {
    forall i, j :: i in rows && j in rows && i != j ==>
      rows[i].name != rows[j].name && (rows[i].slug.Some? ==> rows[i].slug != rows[j].slug)
  }

  /** Writing `p` into the row `ignore` (or a new row) would break a unique index. */
  predicate Conflicts(rows: map<nat, Place>, ignore: Option<nat>, p: Place) {
    || Taken(rows, Name, p.name, ignore)
    || (p.slug.Some? && Taken(rows, Slug, p.slug.value, ignore))
  }

  lemma WriteKeepsUniqueIndexes(rows: map<nat, Place>, id: nat, p: Place)
    requires UniqueIndexes(rows)
    requires !Conflicts(rows, Some(id), p)
    ensures UniqueIndexes(rows[id := p])
  {
    var rows' := rows[id := p];
    forall i, j | i in rows' && j in rows' && i != j
      ensures rows'[i].name != rows'[j].name
      ensures rows'[i].slug.Some? ==> rows'[i].slug != rows'[j].slug
    {
      if i == id {
        assert ColumnValue(rows[j], Name) == Some(rows[j].name);
        assert ColumnValue(rows[j], Slug) == rows[j].slug;
      } else if j == id {
        assert ColumnValue(rows[i], Name) == Some(rows[i].name);
        assert ColumnValue(rows[i], Slug) == rows[i].slug;
      }
    }
  }

  /**
   * The `places` table. Ids come from an auto-increment counter; inserts and
   * updates that would duplicate a name or a non-null slug fail and change nothing.
   */
  class PlaceTable {
    var rows: map<nat, Place>
    var nextId: nat

    ghost predicate Valid()
      reads this
    {
      && (forall id :: id in rows ==> id < nextId)
      && UniqueIndexes(rows)
    }

    constructor ()
      ensures Valid() && rows == map[]
    {
      rows := map[];
      nextId := 1;
    }

    /** `INSERT`: the new row takes the next id. */
    method Insert(p: Place) returns (r: Result<nat, StoreError>)
      requires Valid()
      modifies this
      ensures Valid()
      ensures r.Err? <==> Conflicts(old(rows), None, p)
      ensures r.Err? ==> rows == old(rows) && nextId == old(nextId)
      ensures r.Ok? ==> r.value !in old(rows) && rows == old(rows)[r.value := p]
    {
      if Conflicts(rows, None, p) {
        return Err(UniqueViolation);
      }
      var id := nextId;
      assert !Conflicts(rows, Some(id), p);
      WriteKeepsUniqueIndexes(rows, id, p);
      rows := rows[id := p];
      nextId := nextId + 1;
      r := Ok(id);
    }

    /** `UPDATE ... WHERE id = ?`: the unique indexes ignore the row being rewritten. */
    method Save(id: nat, p: Place) returns (r: Result<(), StoreError>)
      requires Valid() && id in rows
      modifies this
      ensures Valid() && nextId == old(nextId)
      ensures r.Err? <==> Conflicts(old(rows), Some(id), p)
      ensures rows == if r.Ok? then old(rows)[id := p] else old(rows)
    {
      if Conflicts(rows, Some(id), p) {
        return Err(UniqueViolation);
      }
      WriteKeepsUniqueIndexes(rows, id, p);
      rows := rows[id := p];
      r := Ok(());
    }

    /** `DELETE ... WHERE id = ?`. */
    method Remove(id: nat) returns (deleted: bool)
      requires Valid() && id in rows
      modifies this
      ensures Valid() && nextId == old(nextId)
      ensures deleted && rows == old(rows) - {id}
    {
      rows := rows - {id};
      deleted := true;
    }
  }
}
