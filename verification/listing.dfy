/**
 * The pieces of the list query: the case-insensitive name filter (`LIKE '%f%'`),
 * `ORDER BY name` as plain lexicographic order on code points, and the rows
 * of the table that pass the filter, enumerated by id.
 */
module Listing {
  import opened Wrappers
  import opened Models
  import Str

  /** The matching places of the first page, the count of all matches and the page size. */
  datatype Page = Page(items: seq<Row>, total: nat, perPage: int)

  /** `needle` occurs in `hay` starting at position `i`. */
  predicate OccursAt(hay: string, needle: string, i: nat) {
    i + |needle| <= |hay| && hay[i..i + |needle|] == needle
  }

  /** `needle` is a substring of `hay`, scanning from the left. */
  predicate Contains(hay: string, needle: string)
    decreases |hay|
  {
    needle <= hay || (hay != [] && Contains(hay[1..], needle))
  }

  /** A substring found by the scan occurs at some position. */
  lemma {:induction false} ContainsOccurs(hay: string, needle: string) returns (i: nat)
    requires Contains(hay, needle)
    ensures OccursAt(hay, needle, i)
    decreases |hay|
  {
    if needle <= hay {
      i := 0;
      assert hay[0..|needle|] == needle;
    } else {
      var j := ContainsOccurs(hay[1..], needle);
      i := j + 1;
      assert hay[1..][j..j + |needle|] == hay[i..i + |needle|];
    }
  }

  /** An occurrence at any position is found by the scan. */
  lemma {:induction false} OccursContains(hay: string, needle: string, i: nat)
    requires OccursAt(hay, needle, i)
    ensures Contains(hay, needle)
    decreases i
  {
    if i == 0 {
      assert hay[..|needle|] == needle;
    } else {
      assert hay[1..][i - 1..i - 1 + |needle|] == hay[i..i + |needle|];
      OccursContains(hay[1..], needle, i - 1);
    }
  }

  lemma ContainsIff(hay: string, needle: string)
    ensures Contains(hay, needle) <==> exists i: nat :: OccursAt(hay, needle, i)
  {
    if Contains(hay, needle) {
      var i := ContainsOccurs(hay, needle);
    }
    forall i: nat | OccursAt(hay, needle, i) ensures Contains(hay, needle) {
      OccursContains(hay, needle, i);
    }
  }

  /** PHP truthiness of the `?string $name` argument: null, "" and "0" are false. */
  predicate IsFalsy(filter: Option<string>) {
    filter.None? || filter.value == "" || filter.value == "0"
  }

  /** The SQL `LIKE` wildcards, which the query does not escape. */
  predicate HasWildcard(s: string) {
    '%' in s || '_' in s
  }

  /** The `WHERE` clause: no filter, or the lower-cased name contains the lower-cased filter. */
  predicate Matches(name: string, filter: Option<string>) {
    IsFalsy(filter) || Contains(Str.LowerAll(name), Str.LowerAll(filter.value))
  }

  /** The ids below `bound` of the rows that pass the filter. */
  function MatchingIds(rows: map<nat, Place>, bound: nat, filter: Option<string>): set<nat> {
    set id | id in rows && id < bound && Matches(rows[id].name, filter)
  }

  /** The rows below `bound` that pass the filter, in increasing id order. */
  function MatchingRows(rows: map<nat, Place>, bound: nat, filter: Option<string>): (r: seq<Row>)
    ensures forall k :: 0 <= k < |r| ==>
      r[k].id < bound && r[k].id in rows && rows[r[k].id] == r[k].place && Matches(r[k].place.name, filter)
  {
    if bound == 0 then []
    else
      var id := bound - 1;
      MatchingRows(rows, id, filter) + (if id in rows && Matches(rows[id].name, filter) then [Row(id, rows[id])] else [])
  }

  function Ids(r: seq<Row>): set<nat> {
    set k | 0 <= k < |r| :: r[k].id
  }

  lemma IdsAppend(a: seq<Row>, b: seq<Row>)
    ensures Ids(a + b) == Ids(a) + Ids(b)
  {
    forall id | id in Ids(a + b) ensures id in Ids(a) + Ids(b) {
      var k :| 0 <= k < |a + b| && (a + b)[k].id == id;
      if k >= |a| { assert b[k - |a|].id == id; }
    }
    forall id | id in Ids(a) + Ids(b) ensures id in Ids(a + b) {
      if id in Ids(a) {
        var k :| 0 <= k < |a| && a[k].id == id;
        assert (a + b)[k].id == id;
      } else {
        var k :| 0 <= k < |b| && b[k].id == id;
        assert (a + b)[|a| + k].id == id;
      }
    }
  }

  /** A sequence of rows has at most as many ids as rows. */
  lemma {:induction false} IdsBound(r: seq<Row>)
    ensures |Ids(r)| <= |r|
  {
    if r != [] {
      assert r == [r[0]] + r[1..];
      IdsAppend([r[0]], r[1..]);
      IdsOfOne(r[0]);
      IdsBound(r[1..]);
    }
  }

  /** Two rows with the same id leave fewer ids than rows. */
  lemma DuplicateShrinksIds(r: seq<Row>, i: nat, j: nat)
    requires i < j < |r| && r[i].id == r[j].id
    ensures |Ids(r)| < |r|
  {
    var rest := r[..j] + r[j + 1..];
    assert r == r[..j] + [r[j]] + r[j + 1..];
    IdsAppend(r[..j] + [r[j]], r[j + 1..]);
    IdsAppend(r[..j], [r[j]]);
    IdsAppend(r[..j], r[j + 1..]);
    IdsOfOne(r[j]);
    assert r[..j][i].id == r[j].id;
    assert Ids(r) == Ids(rest);
    IdsBound(rest);
  }

  /** As many ids as rows: no id appears twice. */
  lemma DistinctIds(r: seq<Row>)
    requires |Ids(r)| == |r|
    ensures forall i, j :: 0 <= i < j < |r| ==> r[i].id != r[j].id
  {
    forall i, j | 0 <= i < j < |r| ensures r[i].id != r[j].id {
      if r[i].id == r[j].id {
        DuplicateShrinksIds(r, i, j);
      }
    }
  }

  lemma MatchingIdsStep(rows: map<nat, Place>, id: nat, filter: Option<string>)
    ensures MatchingIds(rows, id + 1, filter)
         == MatchingIds(rows, id, filter)
          + (if id in rows && Matches(rows[id].name, filter) then {id} else {})
    ensures id !in MatchingIds(rows, id, filter)
  {
  }

  lemma IdsOfOne(r: Row)
    ensures Ids([r]) == {r.id}
  {
    assert [r][0].id == r.id;
  }

  /** The enumeration lists exactly the matching ids below `bound`. */
  lemma {:induction false} MatchingRowsIds(rows: map<nat, Place>, bound: nat, filter: Option<string>)
    ensures Ids(MatchingRows(rows, bound, filter)) == MatchingIds(rows, bound, filter)
  {
    if bound == 0 {
      assert MatchingIds(rows, bound, filter) == {};
    } else {
      var id := bound - 1;
      MatchingRowsIds(rows, id, filter);
      MatchingIdsStep(rows, id, filter);
      var hit := id in rows && Matches(rows[id].name, filter);
      var last := if hit then [Row(id, rows[id])] else [];
      assert MatchingRows(rows, bound, filter) == MatchingRows(rows, id, filter) + last;
      IdsAppend(MatchingRows(rows, id, filter), last);
      if hit {
        IdsOfOne(Row(id, rows[id]));
      } else {
        assert Ids(last) == {};
      }
    }
  }

  /** The enumeration lists each matching id below `bound` once. */
  lemma {:induction false} MatchingRowsCount(rows: map<nat, Place>, bound: nat, filter: Option<string>)
    ensures |MatchingRows(rows, bound, filter)| == |MatchingIds(rows, bound, filter)|
  {
    if bound == 0 {
      assert MatchingIds(rows, bound, filter) == {};
    } else {
      var id := bound - 1;
      MatchingRowsCount(rows, id, filter);
      MatchingIdsStep(rows, id, filter);
    }
  }

  /** `ORDER BY name`: lexicographic order on code points, a prefix first. */
  predicate LexLe(a: string, b: string)
    decreases |a|
  {
    a == [] || (b != [] && (a[0] < b[0] || (a[0] == b[0] && LexLe(a[1..], b[1..]))))
  }

  lemma {:induction false} LexLeTotal(a: string, b: string)
    ensures LexLe(a, b) || LexLe(b, a)
    decreases |a|
  {
    if a != [] && b != [] && a[0] == b[0] {
      LexLeTotal(a[1..], b[1..]);
    }
  }

  lemma {:induction false} LexLeTransitive(a: string, b: string, c: string)
    requires LexLe(a, b) && LexLe(b, c)
    ensures LexLe(a, c)
    decreases |a|
  {
    if a != [] && a[0] == b[0] && b[0] == c[0] {
      LexLeTransitive(a[1..], b[1..], c[1..]);
    }
  }

  predicate SortedByName(s: seq<Row>) {
    forall k :: 0 <= k < |s| - 1 ==> LexLe(s[k].place.name, s[k + 1].place.name)
  }

  /** Inserts `x` before the first row whose name is not smaller. */
  function InsertByName(x: Row, s: seq<Row>): (r: seq<Row>)
    requires SortedByName(s)
    ensures SortedByName(r)
    ensures multiset(r) == multiset(s) + multiset{x}
    ensures r[0] == x || (s != [] && r[0] == s[0])
  {
    if s == [] then [x]
    else if LexLe(x.place.name, s[0].place.name) then [x] + s
    else
      LexLeTotal(x.place.name, s[0].place.name);
      var tail := InsertByName(x, s[1..]);
      assert s == [s[0]] + s[1..];
      [s[0]] + tail
  }

  /** Insertion sort by name: the result is ordered and holds the same rows. */
  function SortByName(s: seq<Row>): (r: seq<Row>)
    ensures SortedByName(r)
    ensures multiset(r) == multiset(s)
  {
    if s == [] then []
    else
      assert s == [s[0]] + s[1..];
      InsertByName(s[0], SortByName(s[1..]))
  }

  /** A prefix of a name-ordered sequence is name-ordered. */
  lemma SortedPrefix(s: seq<Row>, n: nat)
    requires SortedByName(s) && n <= |s|
    ensures SortedByName(s[..n])
  {
    forall k | 0 <= k < n - 1
      ensures LexLe(s[..n][k].place.name, s[..n][k + 1].place.name)
    {
      assert s[..n][k] == s[k] && s[..n][k + 1] == s[k + 1];
    }
  }

  /** In a sorted sequence every row's name is at most every later row's name. */
  lemma {:induction false} SortedPairwise(s: seq<Row>, i: nat, j: nat)
    requires SortedByName(s) && i <= j < |s|
    ensures LexLe(s[i].place.name, s[j].place.name)
    decreases j - i
  {
    if i == j {
      LexLeTotal(s[i].place.name, s[i].place.name);
    } else {
      SortedPairwise(s, i + 1, j);
      LexLeTransitive(s[i].place.name, s[i + 1].place.name, s[j].place.name);
    }
  }
}
