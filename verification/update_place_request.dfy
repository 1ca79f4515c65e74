/**
 * The rules an update request must pass: the same as for a create, applied only to
 * the keys present, with both uniqueness checks ignoring the row being updated.
 */
module UpdatePlaceRequest {
  import opened Wrappers
  import opened Models
  import opened Validation

  /** The rule table of the request for the place with id `placeId`. */
  function Rules(placeId: nat): RuleTable {
    map[
      Name := [Sometimes, Required, IsString, Max(MaxLength), Unique(Name, Some(placeId))],
      Slug := [Nullable, IsString, Max(MaxLength), Unique(Slug, Some(placeId))],
      City := [Sometimes, Required, IsString, Max(MaxLength)],
      State := [Sometimes, Required, IsString, Max(MaxLength)]
    ]
  }

  /** The name rules: checked when present, and only other rows count as taken. */
  lemma NameRules(data: Input, rows: map<nat, Place>, placeId: nat)
    ensures Passes(Rules(placeId)[Name], Name, data, rows) <==>
      (Name in data ==> FilledText(data, Name, MaxLength) && !Taken(rows, Name, data[Name].s, Some(placeId)))
  {
    var rules := [Required, IsString, Max(MaxLength), Unique(Name, Some(placeId))];
    assert Rules(placeId)[Name] == [Sometimes] + rules;
    RequiredUniquePasses(Name, data, rows, MaxLength, Name, Some(placeId));
    SometimesPasses(rules, Name, data, rows);
  }

  /** The city and state rules: checked only when present. */
  lemma PlainRules(data: Input, rows: map<nat, Place>, placeId: nat, f: Field)
    requires f == City || f == State
    ensures Passes(Rules(placeId)[f], f, data, rows) <==> (f in data ==> FilledText(data, f, MaxLength))
  {
    var rules := [Required, IsString, Max(MaxLength)];
    assert Rules(placeId)[f] == [Sometimes] + rules;
    RequiredPasses(f, data, rows, MaxLength);
    SometimesPasses(rules, f, data, rows);
  }

  /** The fields of an update of place `placeId` that get an error. */
  function Errors(data: Input, rows: map<nat, Place>, placeId: nat): (e: set<Field>)
    ensures Name in e <==>
      Name in data && !(FilledText(data, Name, MaxLength) && !Taken(rows, Name, data[Name].s, Some(placeId)))
    ensures City in e <==> City in data && !FilledText(data, City, MaxLength)
    ensures State in e <==> State in data && !FilledText(data, State, MaxLength)
    ensures Slug in e <==>
      && Slug in data
      && !data[Slug].Null?
      && !IsBlankText(data, Slug)
      && !(data[Slug].Text? && |data[Slug].s| <= MaxLength && !Taken(rows, Slug, data[Slug].s, Some(placeId)))
  {
    NameRules(data, rows, placeId);
    PlainRules(data, rows, placeId, City);
    PlainRules(data, rows, placeId, State);
    NullableUniquePasses(Slug, data, rows, MaxLength, Slug, Some(placeId));
    Validation.Errors(Rules(placeId), data, rows)
  }

  /** Keys that are absent are not checked: a body with only a valid city is accepted. */
  lemma CityOnlyAccepted(city: string, rows: map<nat, Place>, placeId: nat)
    requires !IsBlank(city) && |city| <= MaxLength
    ensures Errors(map[City := Text(city)], rows, placeId) == {}
  {
    var e := Errors(map[City := Text(city)], rows, placeId);
    assert Name !in e && City !in e && State !in e && Slug !in e;
  }

  /** Renaming a place to the name of a different place is rejected on `name`. */
  lemma OtherNameRejected(data: Input, rows: map<nat, Place>, placeId: nat, other: nat)
    requires other in rows && other != placeId
    requires Name in data && data[Name] == Text(rows[other].name)
    ensures Name in Errors(data, rows, placeId)
  {
    assert ColumnValue(rows[other], Name) == Some(rows[other].name);
  }

  /**
   * Keeping a place's own name, or its own slug, passes the uniqueness checks,
   * because its own row is ignored.
   */
  lemma OwnValuesAccepted(data: Input, rows: map<nat, Place>, placeId: nat)
    requires UniqueIndexes(rows) && placeId in rows
    requires Name in data ==> data[Name] == Text(rows[placeId].name)
    requires Slug in data ==> rows[placeId].slug.Some? && data[Slug] == Text(rows[placeId].slug.value)
    ensures Name in data ==> !Taken(rows, Name, data[Name].s, Some(placeId))
    ensures Slug in data ==> !Taken(rows, Slug, data[Slug].s, Some(placeId))
  {
  }
}
