/**
 * The slug helper the service calls when no slug is supplied (Laravel's `Str::slug`),
 * modelled on ASCII text: letters and digits are kept and lower-cased, every run of
 * other characters between two of them becomes a single '-', and nothing is emitted
 * for separators at either end.
 */
module Str {

  predicate IsAlnum(c: char) {
    'a' <= c <= 'z' || 'A' <= c <= 'Z' || '0' <= c <= '9'
  }

  /** ASCII lower-casing; every other character is left as it is. */
  function Lower(c: char): (d: char)
    ensures IsAlnum(c) <==> IsAlnum(d)
    ensures !('A' <= d <= 'Z')
  {
    if 'A' <= c <= 'Z' then (c as int + 32) as char else c
  }

  function LowerAll(s: string): (t: string)
    ensures |t| == |s|
  {
    if s == [] then [] else [Lower(s[0])] + LowerAll(s[1..])
  }

  /** Lower-casing a string lower-cases each character in place. */
  lemma {:induction false} LowerAllAt(s: string)
    ensures forall k :: 0 <= k < |s| ==> LowerAll(s)[k] == Lower(s[k])
  {
    if s != [] {
      LowerAllAt(s[1..]);
      assert LowerAll(s) == [Lower(s[0])] + LowerAll(s[1..]);
    }
  }

  /** The letters and digits of `s`, in order. */
  function Alnums(s: string): string {
    if s == [] then [] else (if IsAlnum(s[0]) then [s[0]] else []) + Alnums(s[1..])
  }

  predicate IsSlugChar(c: char) {
    'a' <= c <= 'z' || '0' <= c <= '9' || c == '-'
  }

  /** A well-formed slug: lower-case letters, digits and single inner hyphens. */
  predicate IsSlug(t: string) {
    && (forall k :: 0 <= k < |t| ==> IsSlugChar(t[k]))
    && (|t| > 0 ==> t[0] != '-' && t[|t| - 1] != '-')
    && (forall k :: 0 <= k < |t| - 1 ==> t[k] == '-' ==> t[k + 1] != '-')
  }

  function Slugify(s: string): string {
    SlugifyFrom(s, "", false)
  }

  /**
   * Consumes `s` from the left, appending to the slug `acc` built so far; `pending` is
   * true when a separator has been read since the last letter or digit.
   */
  function SlugifyFrom(s: string, acc: string, pending: bool): string
    decreases |s|
  {
    if s == [] then acc
    else if IsAlnum(s[0]) then
      SlugifyFrom(s[1..], acc + (if pending && acc != [] then "-" else "") + [Lower(s[0])], false)
    else
      SlugifyFrom(s[1..], acc, true)
  }

  lemma AppendAlnumKeepsSlug(acc: string, sep: string, c: char)
    requires IsSlug(acc) && IsAlnum(c) && !('A' <= c <= 'Z')
    requires sep == "" || (sep == "-" && acc != [])
    ensures IsSlug(acc + sep + [c])
  {
    var t := acc + sep + [c];
    forall k | 0 <= k < |t| - 1 && t[k] == '-'
      ensures t[k + 1] != '-'
    {
      if k < |acc| - 1 {
        assert t[k] == acc[k] && t[k + 1] == acc[k + 1];
      }
    }
  }

  lemma {:induction false} SlugifyFromIsSlug(s: string, acc: string, pending: bool)
    requires IsSlug(acc)
    ensures IsSlug(SlugifyFrom(s, acc, pending))
    decreases |s|
  {
    if s != [] {
      if IsAlnum(s[0]) {
        var sep := if pending && acc != [] then "-" else "";
        AppendAlnumKeepsSlug(acc, sep, Lower(s[0]));
        SlugifyFromIsSlug(s[1..], acc + sep + [Lower(s[0])], false);
      } else {
        SlugifyFromIsSlug(s[1..], acc, true);
      }
    }
  }

  /** Every slug the helper derives is well formed. */
  lemma SlugifyIsSlug(s: string)
    ensures IsSlug(Slugify(s))
  {
    SlugifyFromIsSlug(s, "", false);
  }

  lemma {:induction false} AlnumsAppend(a: string, b: string)
    ensures Alnums(a + b) == Alnums(a) + Alnums(b)
    decreases |a|
  {
    if a == [] {
      assert a + b == b;
    } else {
      var head := if IsAlnum(a[0]) then [a[0]] else [];
      assert (a + b)[0] == a[0] && (a + b)[1..] == a[1..] + b;
      assert Alnums(a + b) == head + Alnums(a[1..] + b);
      AlnumsAppend(a[1..], b);
      assert Alnums(a) == head + Alnums(a[1..]);
    }
  }

  /** Appending an optional hyphen and a letter or digit adds just that character. */
  lemma AlnumsAppendChar(acc: string, sep: string, c: char)
    requires sep == "" || sep == "-"
    requires IsAlnum(c)
    ensures Alnums(acc + sep + [c]) == Alnums(acc) + [c]
  {
    AlnumsAppend(acc + sep, [c]);
    AlnumsAppend(acc, sep);
    assert Alnums(sep) == [];
    assert Alnums([c]) == [c];
  }

  lemma {:induction false} SlugifyFromAlnums(s: string, acc: string, pending: bool)
    ensures Alnums(SlugifyFrom(s, acc, pending)) == Alnums(acc) + LowerAll(Alnums(s))
    decreases |s|
  {
    if s != [] {
      var rest := Alnums(s[1..]);
      if IsAlnum(s[0]) {
        var sep := if pending && acc != [] then "-" else "";
        var acc' := acc + sep + [Lower(s[0])];
        AlnumsAppendChar(acc, sep, Lower(s[0]));
        SlugifyFromAlnums(s[1..], acc', false);
        assert Alnums(s) == [s[0]] + rest;
        assert LowerAll([s[0]] + rest) == [Lower(s[0])] + LowerAll(rest);
      } else {
        SlugifyFromAlnums(s[1..], acc, true);
        assert Alnums(s) == rest;
      }
    }
  }

  /** The slug holds exactly the letters and digits of the name, lower-cased, in order. */
  lemma SlugifyKeepsAlnums(s: string)
    ensures Alnums(Slugify(s)) == LowerAll(Alnums(s))
  {
    SlugifyFromAlnums(s, "", false);
  }

  lemma {:induction false} SlugifyFromSlug(t: string, i: nat, acc: string, pending: bool)
    requires IsSlug(t) && i <= |t|
    requires if i > 0 && t[i - 1] == '-' then acc == t[..i - 1] && pending
             else acc == t[..i] && !pending
    ensures SlugifyFrom(t[i..], acc, pending) == t
    decreases |t| - i
  {
    if i == |t| {
      assert t[..i] == t;
    } else {
      var s := t[i..];
      assert s[0] == t[i] && s[1..] == t[i + 1..];
      if t[i] == '-' {
        assert i > 0;
        assert !IsAlnum(s[0]);
        SlugifyFromSlug(t, i + 1, acc, true);
      } else {
        assert IsAlnum(t[i]) && Lower(t[i]) == t[i];
        if pending {
          assert i - 1 > 0;
          assert acc + "-" + [t[i]] == t[..i + 1];
        } else {
          assert acc + "" + [t[i]] == t[..i + 1];
        }
        SlugifyFromSlug(t, i + 1, acc + (if pending && acc != [] then "-" else "") + [Lower(s[0])], false);
      }
    }
  }

  /** A well-formed slug is its own slug. */
  lemma SlugifyFixesSlugs(t: string)
    requires IsSlug(t)
    ensures Slugify(t) == t
  {
    SlugifyFromSlug(t, 0, "", false);
  }

  /** Slugifying twice gives the same slug as slugifying once. */
  lemma SlugifyIdempotent(s: string)
    ensures Slugify(Slugify(s)) == Slugify(s)
  {
    SlugifyIsSlug(s);
    SlugifyFixesSlugs(Slugify(s));
  }

  /** Slugifying `a + b` is slugifying `a`, then carrying on with `b`. */
  lemma {:induction false} SlugifyFromAppend(a: string, b: string, acc: string, pending: bool)
    ensures SlugifyFrom(a + b, acc, pending)
         == SlugifyFrom(b, SlugifyFrom(a, acc, pending),
                        if a == [] then pending else !IsAlnum(a[|a| - 1]))
    decreases |a|
  {
    if a == [] {
      assert a + b == b;
    } else {
      assert (a + b)[0] == a[0] && (a + b)[1..] == a[1..] + b;
      var acc' := if IsAlnum(a[0]) then acc + (if pending && acc != [] then "-" else "") + [Lower(a[0])] else acc;
      SlugifyFromAppend(a[1..], b, acc', !IsAlnum(a[0]));
    }
  }

  /** A run of characters none of which is a letter or digit (possibly empty). */
  predicate IsSeparator(sep: string) {
    forall k :: 0 <= k < |sep| ==> !IsAlnum(sep[k])
  }

  /** Before anything is emitted, a pending separator makes no difference. */
  lemma SlugifyFromEmpty(s: string, pending: bool)
    ensures SlugifyFrom(s, [], pending) == Slugify(s)
  {
    if s != [] && IsAlnum(s[0]) {
      assert [] + "" + [Lower(s[0])] == [Lower(s[0])];
    }
  }

  /** Separators only set the pending flag; they add nothing to the slug. */
  lemma {:induction false} SlugifyFromSeparator(sep: string, acc: string, pending: bool)
    requires sep != [] && IsSeparator(sep)
    ensures SlugifyFrom(sep, acc, pending) == acc
    decreases |sep|
  {
    assert !IsAlnum(sep[0]);
    if |sep| > 1 {
      assert IsSeparator(sep[1..]) by {
        forall k | 0 <= k < |sep[1..]| ensures !IsAlnum(sep[1..][k]) {
          assert sep[1..][k] == sep[k + 1];
        }
      }
      SlugifyFromSeparator(sep[1..], acc, true);
    }
  }

  /** A non-empty slug built so far is only ever extended, never rewritten. */
  lemma {:induction false} SlugifyFromShift(s: string, x: string, y: string, pending: bool)
    requires y != []
    ensures SlugifyFrom(s, x + y, pending) == x + SlugifyFrom(s, y, pending)
    decreases |s|
  {
    if s != [] {
      if IsAlnum(s[0]) {
        var sep := if pending then "-" else "";
        assert x + y != [];
        assert (x + y) + sep + [Lower(s[0])] == x + (y + sep + [Lower(s[0])]);
        SlugifyFromShift(s[1..], x, y + sep + [Lower(s[0])], false);
      } else {
        SlugifyFromShift(s[1..], x, y, true);
      }
    }
  }

  /**
   * After a non-empty slug and a separator, the next letters and digits start after
   * exactly one hyphen.
   */
  lemma {:induction false} SlugifyFromPending(s: string, acc: string)
    requires acc != [] && Alnums(s) != []
    ensures SlugifyFrom(s, acc, true) == acc + "-" + Slugify(s)
    decreases |s|
  {
    assert s != [];
    if IsAlnum(s[0]) {
      var l := [Lower(s[0])];
      assert acc + "-" + l == (acc + "-") + l;
      SlugifyFromShift(s[1..], acc + "-", l, false);
      assert [] + "" + l == l;
    } else {
      assert Alnums(s) == Alnums(s[1..]);
      SlugifyFromPending(s[1..], acc);
      SlugifyFromEmpty(s[1..], true);
    }
  }

  /** A name with a letter or digit has a non-empty slug. */
  lemma SlugifyNonEmpty(s: string)
    requires Alnums(s) != []
    ensures Slugify(s) != []
  {
    SlugifyKeepsAlnums(s);
    assert |LowerAll(Alnums(s))| > 0;
  }

  /** Separators before the first letter or digit leave no trace in the slug. */
  lemma SlugifyDropsLeading(sep: string, s: string)
    requires IsSeparator(sep)
    ensures Slugify(sep + s) == Slugify(s)
  {
    if sep == [] {
      assert sep + s == s;
    } else {
      SlugifyFromAppend(sep, s, "", false);
      SlugifyFromSeparator(sep, "", false);
      SlugifyFromEmpty(s, true);
    }
  }

  /** Separators after the last letter or digit leave no trace in the slug. */
  lemma SlugifyDropsTrailing(s: string, sep: string)
    requires IsSeparator(sep)
    ensures Slugify(s + sep) == Slugify(s)
  {
    if sep == [] {
      assert s + sep == s;
    } else {
      SlugifyFromAppend(s, sep, "", false);
      SlugifyFromSeparator(sep, Slugify(s), if s == [] then false else !IsAlnum(s[|s| - 1]));
    }
  }

  /**
   * Every run of separators between two parts holding letters or digits becomes exactly
   * one hyphen, however long the run and whatever the parts hold.
   */
  lemma SlugifyJoin(a: string, sep: string, b: string)
    requires sep != [] && IsSeparator(sep)
    requires Alnums(a) != [] && Alnums(b) != []
    ensures Slugify(a + sep + b) == Slugify(a) + "-" + Slugify(b)
  {
    SlugifyFromAppend(a + sep, b, "", false);
    assert (a + sep)[|a + sep| - 1] == sep[|sep| - 1];
    SlugifyFromAppend(a, sep, "", false);
    SlugifyFromSeparator(sep, Slugify(a), if a == [] then false else !IsAlnum(a[|a| - 1]));
    SlugifyNonEmpty(a);
    SlugifyFromPending(b, Slugify(a));
  }

  predicate IsWord(w: string) {
    w != [] && forall k :: 0 <= k < |w| ==> IsAlnum(w[k])
  }

  /** A word of letters and digits goes into the slug lower-cased, after a pending hyphen. */
  lemma {:induction false} SlugifyFromWord(w: string, rest: string, acc: string, pending: bool)
    requires IsWord(w)
    ensures SlugifyFrom(w + rest, acc, pending)
         == SlugifyFrom(rest, acc + (if pending && acc != [] then "-" else "") + LowerAll(w), false)
    decreases |w|
  {
    var sep := if pending && acc != [] then "-" else "";
    var acc' := acc + sep + [Lower(w[0])];
    assert (w + rest)[0] == w[0] && (w + rest)[1..] == w[1..] + rest;
    assert SlugifyFrom(w + rest, acc, pending) == SlugifyFrom(w[1..] + rest, acc', false);
    assert LowerAll(w) == [Lower(w[0])] + LowerAll(w[1..]);
    if |w| == 1 {
      assert w[1..] + rest == rest;
      assert acc' == acc + sep + LowerAll(w);
    } else {
      assert IsAlnum(w[1..][0]) && forall k :: 0 <= k < |w[1..]| ==> IsAlnum(w[1..][k]);
      SlugifyFromWord(w[1..], rest, acc', false);
      assert acc' + "" + LowerAll(w[1..]) == acc + sep + LowerAll(w);
    }
  }

  /** Two words with one separator between them give the two lower-cased words joined by a hyphen. */
  lemma SlugifyTwoWords(a: string, c: char, b: string)
    requires IsWord(a) && IsWord(b) && !IsAlnum(c)
    ensures Slugify(a + [c] + b) == LowerAll(a) + "-" + LowerAll(b)
  {
    var tail := [c] + b;
    assert a + [c] + b == a + tail;
    SlugifyFromWord(a, tail, "", false);
    assert "" + "" + LowerAll(a) == LowerAll(a);
    assert tail[0] == c && tail[1..] == b;
    assert SlugifyFrom(tail, LowerAll(a), false) == SlugifyFrom(b, LowerAll(a), true);
    assert b + [] == b;
    SlugifyFromWord(b, [], LowerAll(a), true);
    assert LowerAll(a) != [];
  }

  /** The same, given each word's lower-cased spelling. */
  lemma SlugifyTwoLoweredWords(a: string, c: char, b: string, la: string, lb: string)
    requires IsWord(a) && IsWord(b) && !IsAlnum(c)
    requires |la| == |a| && forall k :: 0 <= k < |a| ==> Lower(a[k]) == la[k]
    requires |lb| == |b| && forall k :: 0 <= k < |b| ==> Lower(b[k]) == lb[k]
    ensures Slugify(a + [c] + b) == la + "-" + lb
  {
    SlugifyTwoWords(a, c, b);
    LowerAllAt(a);
    LowerAllAt(b);
  }

  /** The slugs the service tests expect. */
  lemma SlugifyCentralPark(name: string)
    requires name == "Central Park"
    ensures Slugify(name) == "central-park"
  {
    assert name == "Central" + [' '] + "Park";
    SlugifyTwoLoweredWords("Central", ' ', "Park", "central", "park");
  }

  lemma SlugifyNewName(name: string)
    requires name == "New Name"
    ensures Slugify(name) == "new-name"
  {
    assert name == "New" + [' '] + "Name";
    SlugifyTwoLoweredWords("New", ' ', "Name", "new", "name");
  }

  lemma SlugifyNewPark(name: string)
    requires name == "New Park"
    ensures Slugify(name) == "new-park"
  {
    assert name == "New" + [' '] + "Park";
    SlugifyTwoLoweredWords("New", ' ', "Park", "new", "park");
  }
}
