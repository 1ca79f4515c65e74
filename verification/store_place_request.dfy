/** The rules a create request must pass before the service sees it. */
module StorePlaceRequest {
  import opened Wrappers
  import opened Models
  import opened Validation

  /** The rule table of the request. */
  function Rules(): RuleTable {
    map[
      Name := [Required, IsString, Max(MaxLength), Unique(Name, None)],
      Slug := [Nullable, IsString, Max(MaxLength), Unique(Slug, None)],
      City := [Required, IsString, Max(MaxLength)],
      State := [Required, IsString, Max(MaxLength)]
    ]
  }

  /** The fields of a create request that get an error, given the rows already stored. */
  function Errors(data: Input, rows: map<nat, Place>): (e: set<Field>)
    ensures Name in e <==> !(FilledText(data, Name, MaxLength) && !Taken(rows, Name, data[Name].s, None))
    ensures City in e <==> !FilledText(data, City, MaxLength)
    ensures State in e <==> !FilledText(data, State, MaxLength)
    ensures Slug in e <==>
      && Slug in data
      && !data[Slug].Null?
      && !IsBlankText(data, Slug)
      && !(data[Slug].Text? && |data[Slug].s| <= MaxLength && !Taken(rows, Slug, data[Slug].s, None))
  {
    RequiredUniquePasses(Name, data, rows, MaxLength, Name, None);
    RequiredPasses(City, data, rows, MaxLength);
    RequiredPasses(State, data, rows, MaxLength);
    NullableUniquePasses(Slug, data, rows, MaxLength, Slug, None);
    Validation.Errors(Rules(), data, rows)
  }

  /** An empty body gets an error on each required field, and only on those. */
  lemma EmptyBodyRejected(rows: map<nat, Place>)
    ensures Errors(map[], rows) == {Name, City, State}
  {
    var e := Errors(map[], rows);
    assert Slug !in e;
  }

  /** A name some row already has is rejected on `name`. */
  lemma DuplicateNameRejected(data: Input, rows: map<nat, Place>, id: nat)
    requires id in rows && Name in data && data[Name] == Text(rows[id].name)
    ensures Name in Errors(data, rows)
  {
    assert ColumnValue(rows[id], Name) == Some(rows[id].name);
  }

  /** A fresh name with a city and a state, without a slug, is accepted. */
  lemma FreshPlaceAccepted(name: string, city: string, state: string, rows: map<nat, Place>)
    requires !IsBlank(name) && !IsBlank(city) && !IsBlank(state)
    requires |name| <= MaxLength && |city| <= MaxLength && |state| <= MaxLength
    requires forall id :: id in rows ==> rows[id].name != name
    ensures Errors(map[Name := Text(name), City := Text(city), State := Text(state)], rows) == {}
  {
    var data := map[Name := Text(name), City := Text(city), State := Text(state)];
    var e := Errors(data, rows);
    assert Name !in e && City !in e && State !in e && Slug !in e;
  }
}
