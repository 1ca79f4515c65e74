/**
 * The place service: list, create, update and delete over the `places` table.
 * The service keeps no state of its own; every operation takes the table.
 */
module PlaceService {
  import opened Wrappers
  import opened Models
  import opened Listing
  import Str
  import Validation
  import StorePlaceRequest
  import UpdatePlaceRequest

  /** The page size `list` uses when none is given (also the model's default `perPage`). */
  const DefaultPerPage: int := 15

  /** The data a create is called with: what a create request that passed validation yields. */
  predicate CreateShaped(data: Input) {
    && Name in data && data[Name].Text?
    && City in data && data[City].Text?
    && State in data && data[State].Text?
    && (Slug in data ==> data[Slug].Null? || data[Slug].Text?)
  }

  /** The data an update is called with: strings, and possibly a null slug. */
  predicate UpdateShaped(data: Input) {
    forall f :: f in data ==> data[f].Text? || (f == Slug && data[f].Null?)
  }

  /** Mass assignment of the supplied attributes onto a record (Eloquent's `fill`). */
  function Fill(p: Place, data: Input): Place
    requires UpdateShaped(data)
  {
    Place(
      if Name in data then data[Name].s else p.name,
      if Slug in data then (if data[Slug].Text? then Some(data[Slug].s) else None) else p.slug,
      if City in data then data[City].s else p.city,
      if State in data then data[State].s else p.state)
  }

  /** The slug a create stores: the one supplied, or else the one derived from the name. */
  function CreateSlug(data: Input): string
    requires CreateShaped(data)
  {
    if IsSet(data, Slug) then data[Slug].s else Str.Slugify(data[Name].s)
  }

  /** The record a create inserts. */
  function CreatedRecord(data: Input): Place
    requires CreateShaped(data)
  {
    Place(data[Name].s, Some(CreateSlug(data)), data[City].s, data[State].s)
  }

  /**
   * The slug after an update: a supplied slug wins; otherwise a supplied name brings a
   * slug derived from it; otherwise a null slug clears it; otherwise it is kept.
   */
  function UpdatedSlug(slug: Option<string>, data: Input): Option<string>
    requires UpdateShaped(data)
  {
    if IsSet(data, Slug) then Some(data[Slug].s)
    else if IsSet(data, Name) then Some(Str.Slugify(data[Name].s))
    else if Slug in data then None
    else slug
  }

  /** The record after an update: supplied keys overwrite, the rest is kept. */
  function UpdatedRecord(p: Place, data: Input): Place
    requires UpdateShaped(data)
  {
    Place(
      if Name in data then data[Name].s else p.name,
      UpdatedSlug(p.slug, data),
      if City in data then data[City].s else p.city,
      if State in data then data[State].s else p.state)
  }

  /**
   * A create always stores a slug. A supplied one is kept verbatim; otherwise it is the
   * slug of the name, which is URL-safe and spells the name's letters and digits,
   * lower-cased, in order.
   */
  lemma CreatedSlug(data: Input)
    requires CreateShaped(data)
    ensures CreatedRecord(data).slug.Some?
    ensures IsSet(data, Slug) ==> CreatedRecord(data).slug.value == data[Slug].s
    ensures !IsSet(data, Slug) ==>
      var slug := CreatedRecord(data).slug.value;
      slug == Str.Slugify(data[Name].s)
      && Str.IsSlug(slug) && Str.Alnums(slug) == Str.LowerAll(Str.Alnums(data[Name].s))
  {
    Str.SlugifyIsSlug(data[Name].s);
    Str.SlugifyKeepsAlnums(data[Name].s);
  }

  /**
   * An update overwrites only what is supplied: an attribute whose key is absent keeps its
   * value, and the slug is kept when neither a name nor a slug is supplied. A name supplied
   * without a slug brings the new name's slug, which is URL-safe and spells the new name's
   * letters and digits.
   */
  lemma UpdateKeepsUnsupplied(p: Place, data: Input)
    requires UpdateShaped(data)
    ensures var q := UpdatedRecord(p, data);
      && (Name !in data ==> q.name == p.name)
      && (City !in data ==> q.city == p.city)
      && (State !in data ==> q.state == p.state)
      && (Name !in data && Slug !in data ==> q.slug == p.slug)
      && (Name in data ==> q.name == data[Name].s)
      && (IsSet(data, Slug) ==> q.slug == Some(data[Slug].s))
      && (Name in data && !IsSet(data, Slug) ==>
            q.slug == Some(Str.Slugify(data[Name].s)) && Str.IsSlug(q.slug.value)
            && Str.Alnums(q.slug.value) == Str.LowerAll(Str.Alnums(data[Name].s)))
  {
    if Name in data {
      Str.SlugifyIsSlug(data[Name].s);
      Str.SlugifyKeepsAlnums(data[Name].s);
    }
  }

  /**
   * Inserts a place. Without a slug (absent or null) the slug is derived from the name;
   * a supplied slug is stored as it is. A duplicate name or slug makes the insert fail.
   */
  method Create(table: PlaceTable, data: Input) returns (r: Result<Row, StoreError>)
    requires table.Valid() && CreateShaped(data)
    modifies table
    ensures table.Valid()
    ensures r.Err? <==> Conflicts(old(table.rows), None, CreatedRecord(data))
    ensures r.Err? ==> table.rows == old(table.rows)
    ensures r.Ok? ==> r.value.place == CreatedRecord(data)
    ensures r.Ok? ==> r.value.id !in old(table.rows) && table.rows == old(table.rows)[r.value.id := r.value.place]
  {
    var d := data;
    if !IsSet(d, Slug) {
      d := d[Slug := Text(Str.Slugify(d[Name].s))];
    }
    var p := Fill(Place("", None, "", ""), d);
    assert p == CreatedRecord(data);
    var inserted := table.Insert(p);
    match inserted
    case Ok(id) => r := Ok(Row(id, p));
    case Err(e) => r := Err(e);
  }

  /**
   * Updates a stored place. A supplied name without a slug brings a slug derived from
   * the new name; then every supplied key overwrites its attribute and nothing else
   * changes. Returns the stored record as it is after the update.
   */
  method Update(table: PlaceTable, id: nat, data: Input) returns (r: Result<Place, StoreError>)
    requires table.Valid() && id in table.rows && UpdateShaped(data)
    modifies table
    ensures table.Valid() && table.nextId == old(table.nextId)
    ensures r.Err? <==> Conflicts(old(table.rows), Some(id), UpdatedRecord(old(table.rows[id]), data))
    ensures r.Err? ==> table.rows == old(table.rows)
    ensures r.Ok? ==> r.value == UpdatedRecord(old(table.rows[id]), data)
    ensures r.Ok? ==> table.rows == old(table.rows)[id := r.value]
  {
    var d := data;
    if IsSet(d, Name) && !IsSet(d, Slug) {
      d := d[Slug := Text(Str.Slugify(d[Name].s))];
    }
    var p := Fill(table.rows[id], d);
    assert p == UpdatedRecord(table.rows[id], data);
    var saved := table.Save(id, p);
    if saved.Ok? {
      r := Ok(table.rows[id]);
    } else {
      r := Err(saved.error);
    }
  }

  /** Deletes a stored place; exactly that row goes. */
  method Delete(table: PlaceTable, id: nat) returns (deleted: bool)
    requires table.Valid() && id in table.rows
    modifies table
    ensures table.Valid()
    ensures deleted && id !in table.rows && table.rows == old(table.rows) - {id}
  {
    deleted := table.Remove(id);
  }

  function Min(a: int, b: int): int {
    if a <= b then a else b
  }

  lemma IdsOfPermutation(a: seq<Row>, b: seq<Row>)
    requires multiset(a) == multiset(b)
    ensures Ids(a) == Ids(b)
  {
    forall id | id in Ids(a) ensures id in Ids(b) {
      var k :| 0 <= k < |a| && a[k].id == id;
      assert a[k] in multiset(b);
      var j :| 0 <= j < |b| && b[j] == a[k];
    }
    forall id | id in Ids(b) ensures id in Ids(a) {
      var k :| 0 <= k < |b| && b[k].id == id;
      assert b[k] in multiset(a);
      var j :| 0 <= j < |a| && a[j] == b[k];
    }
  }

  /** A row left off the first page of a sorted sequence sorts after every row on it. */
  lemma LeftOffSortsAfter(sorted: seq<Row>, count: nat, id: nat, k: nat) returns (j: nat)
    requires SortedByName(sorted) && count <= |sorted|
    requires id in Ids(sorted) && id !in Ids(sorted[..count]) && k < count
    ensures count <= j < |sorted| && sorted[j].id == id
    ensures LexLe(sorted[k].place.name, sorted[j].place.name)
  {
    var i :| 0 <= i < |sorted| && sorted[i].id == id;
    j := i;
    SortedPairwise(sorted, k, j);
  }

  /**
   * The first page of places whose name contains `name` (compared case-insensitively),
   * ordered by name, with the number of all such places. A null, "" or "0" filter
   * matches every place; a page size of 0 means the default, and a negative page size
   * puts every match on the page.
   */
  function List(table: PlaceTable, name: Option<string> := None, perPage: int := DefaultPerPage): (page: Page)
    reads table
    requires table.Valid()
    requires name.Some? ==> !HasWildcard(name.value)
    ensures page.total == |set id | id in table.rows && Matches(table.rows[id].name, name)|
    ensures IsFalsy(name) ==> page.total == |table.rows|
    ensures page.perPage == if perPage == 0 then DefaultPerPage else perPage
    ensures |page.items| == if page.perPage < 0 then page.total else Min(page.perPage, page.total)
    ensures SortedByName(page.items)
    ensures forall i, j :: 0 <= i < j < |page.items| ==> page.items[i].id != page.items[j].id
    ensures forall k :: 0 <= k < |page.items| ==>
      && page.items[k].id in table.rows
      && table.rows[page.items[k].id] == page.items[k].place
      && Matches(page.items[k].place.name, name)
    ensures forall id, k :: id in table.rows && Matches(table.rows[id].name, name) && id !in Ids(page.items) && 0 <= k < |page.items| ==>
      LexLe(page.items[k].place.name, table.rows[id].name)
  {
    QueryPage(table.rows, table.nextId, name, perPage);
    Query(table.rows, table.nextId, name, perPage)
  }

  /** `WHERE` the filter, `ORDER BY name`, first page of `perPage` rows, with the total count. */
  function Query(rows: map<nat, Place>, bound: nat, name: Option<string>, perPage: int): Page {
    var sorted := SortByName(MatchingRows(rows, bound, name));
    var size := if perPage == 0 then DefaultPerPage else perPage;
    var count := if size < 0 then |sorted| else Min(size, |sorted|);
    Page(sorted[..count], |sorted|, size)
  }

  lemma QueryPage(rows: map<nat, Place>, bound: nat, name: Option<string>, perPage: int)
    requires forall id :: id in rows ==> id < bound
    ensures var page := Query(rows, bound, name, perPage);
      && page.total == |set id | id in rows && Matches(rows[id].name, name)|
      && (IsFalsy(name) ==> page.total == |rows|)
      && page.perPage == (if perPage == 0 then DefaultPerPage else perPage)
      && |page.items| == (if page.perPage < 0 then page.total else Min(page.perPage, page.total))
      && SortedByName(page.items)
      && (forall i, j :: 0 <= i < j < |page.items| ==> page.items[i].id != page.items[j].id)
      && (forall k :: 0 <= k < |page.items| ==>
           && page.items[k].id in rows
           && rows[page.items[k].id] == page.items[k].place
           && Matches(page.items[k].place.name, name))
      && (forall id, k :: id in rows && Matches(rows[id].name, name) && id !in Ids(page.items) && 0 <= k < |page.items| ==>
           LexLe(page.items[k].place.name, rows[id].name))
  {
    MatchCount(rows, bound, name);
    QuerySorted(rows, bound, name, perPage);
    QueryDistinct(rows, bound, name, perPage);
    QueryItems(rows, bound, name, perPage);
    QueryLeftOff(rows, bound, name, perPage);
  }

  /** The rows on the page are in name order. */
  lemma QuerySorted(rows: map<nat, Place>, bound: nat, name: Option<string>, perPage: int)
    ensures SortedByName(Query(rows, bound, name, perPage).items)
  {
    var sorted := SortByName(MatchingRows(rows, bound, name));
    var items := Query(rows, bound, name, perPage).items;
    assert items == sorted[..|items|];
    SortedPrefix(sorted, |items|);
  }

  /** No place appears twice on the page. */
  lemma QueryDistinct(rows: map<nat, Place>, bound: nat, name: Option<string>, perPage: int)
    ensures var items := Query(rows, bound, name, perPage).items;
      forall i, j :: 0 <= i < j < |items| ==> items[i].id != items[j].id
  {
    var matching := MatchingRows(rows, bound, name);
    var sorted := SortByName(matching);
    var items := Query(rows, bound, name, perPage).items;
    assert items == sorted[..|items|];
    MatchingRowsIds(rows, bound, name);
    MatchingRowsCount(rows, bound, name);
    IdsOfPermutation(matching, sorted);
    assert |sorted| == |multiset(sorted)| == |multiset(matching)| == |matching|;
    DistinctIds(sorted);
  }

  /** Each row on the page is a stored row that matches. */
  lemma QueryItems(rows: map<nat, Place>, bound: nat, name: Option<string>, perPage: int)
    ensures var items := Query(rows, bound, name, perPage).items;
      forall k :: 0 <= k < |items| ==>
        items[k].id in rows && rows[items[k].id] == items[k].place && Matches(items[k].place.name, name)
  {
    var sorted := SortByName(MatchingRows(rows, bound, name));
    var items := Query(rows, bound, name, perPage).items;
    assert items == sorted[..|items|];
    SortedRowsMatch(rows, bound, name, sorted);
  }

  /** Every matching row left off the page sorts after every row on it. */
  lemma QueryLeftOff(rows: map<nat, Place>, bound: nat, name: Option<string>, perPage: int)
    requires forall id :: id in rows ==> id < bound
    ensures var items := Query(rows, bound, name, perPage).items;
      forall id, k :: id in rows && Matches(rows[id].name, name) && id !in Ids(items) && 0 <= k < |items| ==>
        LexLe(items[k].place.name, rows[id].name)
  {
    var sorted := SortByName(MatchingRows(rows, bound, name));
    var items := Query(rows, bound, name, perPage).items;
    assert items == sorted[..|items|];
    FirstPage(rows, bound, name, sorted, |items|);
  }

  /** The number of rows the enumeration yields is the number of matching rows. */
  lemma MatchCount(rows: map<nat, Place>, bound: nat, name: Option<string>)
    requires forall id :: id in rows ==> id < bound
    ensures |MatchingRows(rows, bound, name)| == |set id | id in rows && Matches(rows[id].name, name)|
    ensures IsFalsy(name) ==> |MatchingRows(rows, bound, name)| == |rows|
  {
    MatchingRowsCount(rows, bound, name);
    assert MatchingIds(rows, bound, name) == set id | id in rows && Matches(rows[id].name, name);
    if IsFalsy(name) {
      assert MatchingIds(rows, bound, name) == rows.Keys;
    }
  }

  /** Every row of the sorted matches is a stored row that passes the filter. */
  lemma SortedRowsMatch(rows: map<nat, Place>, bound: nat, name: Option<string>, sorted: seq<Row>)
    requires sorted == SortByName(MatchingRows(rows, bound, name))
    ensures forall k :: 0 <= k < |sorted| ==>
      sorted[k].id in rows && rows[sorted[k].id] == sorted[k].place && Matches(sorted[k].place.name, name)
  {
    var matching := MatchingRows(rows, bound, name);
    forall k | 0 <= k < |sorted|
      ensures sorted[k].id in rows && rows[sorted[k].id] == sorted[k].place && Matches(sorted[k].place.name, name)
    {
      assert sorted[k] in multiset(matching);
    }
  }

  /** Every matching row left off the page sorts after every row on it. */
  lemma FirstPage(rows: map<nat, Place>, bound: nat, name: Option<string>, sorted: seq<Row>, count: nat)
    requires forall id :: id in rows ==> id < bound
    requires sorted == SortByName(MatchingRows(rows, bound, name)) && count <= |sorted|
    ensures forall id, k :: id in rows && Matches(rows[id].name, name) && id !in Ids(sorted[..count]) && 0 <= k < count ==>
      LexLe(sorted[k].place.name, rows[id].name)
  {
    var matching := MatchingRows(rows, bound, name);
    MatchingRowsIds(rows, bound, name);
    IdsOfPermutation(matching, sorted);
    SortedRowsMatch(rows, bound, name, sorted);
    forall id, k | id in rows && Matches(rows[id].name, name) && id !in Ids(sorted[..count]) && 0 <= k < count
      ensures LexLe(sorted[k].place.name, rows[id].name)
    {
      assert id in MatchingIds(rows, bound, name);
      var j := LeftOffSortsAfter(sorted, count, id, k);
    }
  }

  /** Data that passed the create request has the shape `Create` is called with. */
  lemma StoreAcceptedIsShaped(data: Input, rows: map<nat, Place>)
    requires StorePlaceRequest.Errors(data, rows) == {}
    ensures CreateShaped(data)
  {
    assert Name !in StorePlaceRequest.Errors(data, rows);
    assert Slug !in StorePlaceRequest.Errors(data, rows);
  }

  /** Data that passed the update request has the shape `Update` is called with. */
  lemma UpdateAcceptedIsShaped(data: Input, rows: map<nat, Place>, id: nat)
    requires UpdatePlaceRequest.Errors(data, rows, id) == {}
    ensures UpdateShaped(data)
  {
    var e := UpdatePlaceRequest.Errors(data, rows, id);
    forall f | f in data ensures data[f].Text? || (f == Slug && data[f].Null?) {
      assert f !in e;
    }
  }

  /**
   * The create request does not check a slug it does not see: a derived slug, or a
   * supplied one that is blank. After the request passes, the insert fails exactly
   * when such a slug is already taken.
   */
  lemma AcceptedCreateConflicts(data: Input, rows: map<nat, Place>)
    requires StorePlaceRequest.Errors(data, rows) == {}
    ensures CreateShaped(data)
    ensures Conflicts(rows, None, CreatedRecord(data)) <==>
      (!IsSet(data, Slug) || Validation.IsBlankText(data, Slug)) && Taken(rows, Slug, CreateSlug(data), None)
  {
    StoreAcceptedIsShaped(data, rows);
    var e := StorePlaceRequest.Errors(data, rows);
    assert Name !in e && Slug !in e;
  }

  /**
   * The same for an update of a valid table: after the update request passes, saving
   * fails exactly when the new slug is one the request did not check (derived from a
   * new name, or blank) and another row already has it.
   */
  lemma AcceptedUpdateConflicts(data: Input, rows: map<nat, Place>, id: nat)
    requires UniqueIndexes(rows) && id in rows
    requires UpdatePlaceRequest.Errors(data, rows, id) == {}
    ensures UpdateShaped(data)
    ensures var p := UpdatedRecord(rows[id], data);
      Conflicts(rows, Some(id), p) <==>
        && ((IsSet(data, Name) && !IsSet(data, Slug)) || Validation.IsBlankText(data, Slug))
        && Taken(rows, Slug, p.slug.value, Some(id))
  {
    UpdateAcceptedIsShaped(data, rows, id);
    var e := UpdatePlaceRequest.Errors(data, rows, id);
    assert Name !in e && Slug !in e;
  }

  /**
   * A derived slug that collides: a fresh name passes the create request without a slug,
   * yet the insert fails when another place already holds the slug derived from it.
   */
  lemma DerivedSlugCollides(rows: map<nat, Place>, name: string, city: string, state: string, other: nat)
    requires !Validation.IsBlank(name) && !Validation.IsBlank(city) && !Validation.IsBlank(state)
    requires |name| <= Validation.MaxLength && |city| <= Validation.MaxLength && |state| <= Validation.MaxLength
    requires forall id :: id in rows ==> rows[id].name != name
    requires other in rows && rows[other].slug == Some(Str.Slugify(name))
    ensures var data := map[Name := Text(name), City := Text(city), State := Text(state)];
      && StorePlaceRequest.Errors(data, rows) == {}
      && Conflicts(rows, None, CreatedRecord(data))
  {
    var data := map[Name := Text(name), City := Text(city), State := Text(state)];
    StorePlaceRequest.FreshPlaceAccepted(name, city, state, rows);
    assert !IsSet(data, Slug);
    assert ColumnValue(rows[other], Slug) == Some(CreateSlug(data));
  }

  /** "Central Park" next to a place named "Central Park (north)" that holds "central-park". */
  lemma DerivedSlugCollision(name: string)
    requires name == "Central Park"
    ensures var rows := map[1 := Place("Central Park (north)", Some("central-park"), "New York", "NY")];
      var data := map[Name := Text(name), City := Text("New York"), State := Text("NY")];
      && StorePlaceRequest.Errors(data, rows) == {}
      && Conflicts(rows, None, CreatedRecord(data))
  {
    var rows := map[1 := Place("Central Park (north)", Some("central-park"), "New York", "NY")];
    assert !Validation.IsTrimmed(name[0]) && !Validation.IsTrimmed("New York"[0]) && !Validation.IsTrimmed("NY"[0]);
    Str.SlugifyCentralPark(name);
    DerivedSlugCollides(rows, name, "New York", "NY", 1);
  }

  /** Updating a record twice with the same data changes nothing the second time. */
  lemma UpdateIdempotent(p: Place, data: Input)
    requires UpdateShaped(data)
    ensures UpdatedRecord(UpdatedRecord(p, data), data) == UpdatedRecord(p, data)
  {
  }

  /** An update with no keys leaves the record as it is. */
  lemma EmptyUpdateKeepsRecord(p: Place)
    ensures UpdatedRecord(p, map[]) == p
  {
  }

  /** Deleting what was just created gives back the rows there were before. */
  method CreateThenDelete(table: PlaceTable, data: Input)
    requires table.Valid() && CreateShaped(data)
    modifies table
    ensures table.Valid() && table.rows == old(table.rows)
  {
    var created := Create(table, data);
    if created.Ok? {
      var deleted := Delete(table, created.value.id);
      assert table.rows == old(table.rows);
    }
  }

  /** Renaming a place without a slug derives a new slug from the new name and keeps the rest. */
  lemma RenameRederivesSlug(p: Place, name: string)
    ensures UpdatedRecord(p, map[Name := Text(name)]) == Place(name, Some(Str.Slugify(name)), p.city, p.state)
  {
    var data := map[Name := Text(name)];
    assert Name in data && Slug !in data && City !in data && State !in data;
  }

  /** Renaming a place with a slug keeps the supplied slug rather than deriving one. */
  lemma RenameWithSlugKeepsIt(p: Place, name: string, slug: string)
    ensures UpdatedRecord(p, map[Name := Text(name), Slug := Text(slug)]) == Place(name, Some(slug), p.city, p.state)
  {
    var data := map[Name := Text(name), Slug := Text(slug)];
    assert Name in data && Slug in data && City !in data && State !in data;
  }

  /** A table of one row has no other row for the row to clash with. */
  lemma OnlyRowNeverConflicts(id: nat, p: Place, q: Place)
    ensures !Conflicts(map[id := p], Some(id), q)
  {
  }

  /** Renames the only place of a table, with or without a new slug. */
  method RenameOnlyPlace(table: PlaceTable, id: nat, name: string, slug: Option<string>) returns (p: Place)
    requires table.Valid() && table.rows.Keys == {id}
    modifies table
    ensures table.Valid()
    ensures p.name == name && p.city == old(table.rows[id]).city && p.state == old(table.rows[id]).state
    ensures p.slug == if slug.Some? then slug else Some(Str.Slugify(name))
    ensures table.rows == map[id := p]
  {
    var data := if slug.Some? then map[Name := Text(name), Slug := Text(slug.value)] else map[Name := Text(name)];
    var before := table.rows[id];
    assert table.rows == map[id := before];
    if slug.Some? {
      RenameWithSlugKeepsIt(before, name, slug.value);
    } else {
      RenameRederivesSlug(before, name);
    }
    OnlyRowNeverConflicts(id, before, UpdatedRecord(before, data));
    var r := Update(table, id, data);
    p := r.value;
  }

  /**
   * On an empty table: create a place without a slug, rename it without a slug, rename
   * it again with a slug, then delete it. With "Central Park" and "New Park" the slugs
   * are "central-park" and "new-park" (`Str.SlugifyCentralPark`, `Str.SlugifyNewPark`).
   */
  method RenameScenario(name: string, city: string, state: string, newName: string, slug: string)
    returns (created: Place, renamed: Place, kept: Place)
    ensures created == Place(name, Some(Str.Slugify(name)), city, state)
    ensures renamed == Place(newName, Some(Str.Slugify(newName)), city, state)
    ensures kept == Place(newName, Some(slug), city, state)
  {
    var table := new PlaceTable();
    var data := map[Name := Text(name), City := Text(city), State := Text(state)];
    assert Slug !in data;
    var r := Create(table, data);
    assert r.Ok?;
    var id := r.value.id;
    created := r.value.place;
    assert table.rows.Keys == {id};

    renamed := RenameOnlyPlace(table, id, newName, None);
    kept := RenameOnlyPlace(table, id, newName, Some(slug));

    var deleted := Delete(table, id);
    assert table.rows == map[];
  }

  /** Twenty places and the default page size: fifteen on the page, twenty in all. */
  lemma DefaultPageHoldsFifteen(table: PlaceTable)
    requires table.Valid() && |table.rows| == 20
    ensures |List(table).items| == 15 && List(table).total == 20 && List(table).perPage == 15
  {
  }

  /** Twenty places and a page size of 5: five on the page. */
  lemma PageOfFive(table: PlaceTable)
    requires table.Valid() && |table.rows| == 20
    ensures |List(table, None, 5).items| == 5 && List(table, None, 5).perPage == 5
  {
  }
}
