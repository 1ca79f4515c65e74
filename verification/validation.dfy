/**
 * The part of Laravel's validator that the two place requests use: a rule table maps
 * each field to its rules, and a field fails when one of its rules applies to the
 * input and does not hold. Whether a rule applies follows the validator:
 *   - `sometimes`: the field's rules apply only when its key is present;
 *   - `nullable`: the field's rules, other than `required`, do not apply to null;
 *   - a rule other than `required` does not apply to an absent key, nor to a string
 *     that is empty or only whitespace.
 */
module Validation {
  import opened Wrappers
  import opened Models

  datatype Rule =
    | Sometimes
    | Required
    | Nullable
    | IsString
    | Max(size: nat)
      /** `unique:places,<column>`, optionally ignoring the row with the given id. */
    | Unique(column: Field, ignore: Option<nat>)

  type RuleTable = map<Field, seq<Rule>>

  /** The `max:255` limit both place requests put on every string field. */
  const MaxLength: nat := 255

  /** The characters PHP's `trim` removes. */
  predicate IsTrimmed(c: char) {
    c == ' ' || c == '\t' || c == '\n' || c == '\r' || c == '\0' || c as int == 11
  }

  /** `trim($s) === ''`. */
  predicate IsBlank(s: string) {
    forall k :: 0 <= k < |s| ==> IsTrimmed(s[k])
  }

  /** The key is present and holds a string that is empty or only whitespace. */
  predicate IsBlankText(data: Input, f: Field) {
    f in data && data[f].Text? && IsBlank(data[f].s)
  }

  /** Whether `rule`, one of the field's `rules`, is checked against the input. */
  predicate Applies(rules: seq<Rule>, rule: Rule, f: Field, data: Input) {
    && (Sometimes in rules ==> f in data)
    && (if IsBlankText(data, f) then rule == Required else f in data || rule == Required)
    && (rule != Required && Nullable in rules ==> !data[f].Null?)
  }

  /** Whether `rule` holds of the field's value. */
  predicate Holds(rule: Rule, f: Field, data: Input, rows: map<nat, Place>) {
    match rule
    case Sometimes => true
    case Nullable => true
    case Required => f in data && !data[f].Null? && !IsBlankText(data, f)
    case IsString => f in data && data[f].Text?
    case Max(size) => f in data && data[f].Text? ==> |data[f].s| <= size
    case Unique(column, ignore) => f in data && data[f].Text? ==> !Taken(rows, column, data[f].s, ignore)
  }

  predicate Passes(rules: seq<Rule>, f: Field, data: Input, rows: map<nat, Place>) {
    forall rule :: rule in rules && Applies(rules, rule, f, data) ==> Holds(rule, f, data, rows)
  }

  /** The fields that get a validation error; the request is accepted when there are none. */
  function Errors(table: RuleTable, data: Input, rows: map<nat, Place>): set<Field> {
    set f | f in table && !Passes(table[f], f, data, rows)
  }

  /** A present, non-blank string of at most `size` characters. */
  predicate FilledText(data: Input, f: Field, size: nat) {
    f in data && data[f].Text? && !IsBlank(data[f].s) && |data[f].s| <= size
  }

  /** `required|string|max:n|unique`: a present, non-blank string of at most `n` characters, not taken. */
  lemma RequiredUniquePasses(f: Field, data: Input, rows: map<nat, Place>, n: nat, column: Field, ignore: Option<nat>)
    ensures Passes([Required, IsString, Max(n), Unique(column, ignore)], f, data, rows)
        <==> FilledText(data, f, n) && !Taken(rows, column, data[f].s, ignore)
  {
    var rules := [Required, IsString, Max(n), Unique(column, ignore)];
    if !FilledText(data, f, n) {
      if f !in data || data[f].Null? || IsBlankText(data, f) {
        assert Applies(rules, Required, f, data) && !Holds(Required, f, data, rows);
      } else if !data[f].Text? {
        assert Applies(rules, IsString, f, data) && !Holds(IsString, f, data, rows);
      } else {
        assert Applies(rules, Max(n), f, data) && !Holds(Max(n), f, data, rows);
      }
    } else if Taken(rows, column, data[f].s, ignore) {
      assert Applies(rules, Unique(column, ignore), f, data) && !Holds(Unique(column, ignore), f, data, rows);
    }
  }

  /** `required|string|max:n`: a present, non-blank string of at most `n` characters. */
  lemma RequiredPasses(f: Field, data: Input, rows: map<nat, Place>, n: nat)
    ensures Passes([Required, IsString, Max(n)], f, data, rows) <==> FilledText(data, f, n)
  {
    var rules := [Required, IsString, Max(n)];
    if !FilledText(data, f, n) {
      if f !in data || data[f].Null? || IsBlankText(data, f) {
        assert Applies(rules, Required, f, data) && !Holds(Required, f, data, rows);
      } else if !data[f].Text? {
        assert Applies(rules, IsString, f, data) && !Holds(IsString, f, data, rows);
      } else {
        assert Applies(rules, Max(n), f, data) && !Holds(Max(n), f, data, rows);
      }
    }
  }

  /** With `sometimes` in front, the same rules are checked only when the key is present. */
  lemma SometimesPasses(rules: seq<Rule>, f: Field, data: Input, rows: map<nat, Place>)
    requires Sometimes !in rules && Nullable !in rules
    ensures Passes([Sometimes] + rules, f, data, rows) <==> (f in data ==> Passes(rules, f, data, rows))
  {
    var all := [Sometimes] + rules;
    if f in data && !Passes(all, f, data, rows) {
      var rule :| rule in all && Applies(all, rule, f, data) && !Holds(rule, f, data, rows);
      assert rule in rules && Applies(rules, rule, f, data);
    }
    if f in data && !Passes(rules, f, data, rows) {
      var rule :| rule in rules && Applies(rules, rule, f, data) && !Holds(rule, f, data, rows);
      assert rule in all && Applies(all, rule, f, data);
    }
  }

  /**
   * `nullable|string|max:n|unique`: absent, null, blank, or a string of at most `n`
   * characters that is not taken.
   */
  lemma NullableUniquePasses(f: Field, data: Input, rows: map<nat, Place>, n: nat, column: Field, ignore: Option<nat>)
    ensures Passes([Nullable, IsString, Max(n), Unique(column, ignore)], f, data, rows)
        <==> (|| f !in data
              || data[f].Null?
              || IsBlankText(data, f)
              || (data[f].Text? && |data[f].s| <= n && !Taken(rows, column, data[f].s, ignore)))
  {
    var rules := [Nullable, IsString, Max(n), Unique(column, ignore)];
    if f in data && !data[f].Null? && !IsBlankText(data, f) {
      if !data[f].Text? {
        assert Applies(rules, IsString, f, data) && !Holds(IsString, f, data, rows);
      } else if |data[f].s| > n {
        assert Applies(rules, Max(n), f, data) && !Holds(Max(n), f, data, rows);
      } else if Taken(rows, column, data[f].s, ignore) {
        assert Applies(rules, Unique(column, ignore), f, data) && !Holds(Unique(column, ignore), f, data, rows);
      }
    }
  }
}
