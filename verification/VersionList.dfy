/** The version list kept for one package stem: the entries of one catalog part,
    sorted by version (src/modules/catalog.py, CatalogPart). */
module VersionLists {
  import opened Common
  import opened Versions

  /** A catalog entry: its version, its "actions" list and its remaining items
      (manifest signatures and metadata, in the base part only). */
  datatype Entry = Entry(version: Version, actions: seq<string>, info: map<string, string>)

  ghost predicate Ascending(s: seq<Entry>) {
    forall i, j :: 0 <= i < j < |s| ==> Le(s[i].version, s[j].version)
  }

  ghost predicate Distinct(s: seq<Entry>) {
    forall i, j :: 0 <= i < j < |s| ==> s[i].version != s[j].version
  }

  predicate Has(s: seq<Entry>, v: Version) {
    exists i :: 0 <= i < |s| && s[i].version == v
  }

  // ------------------------------------------------------------- stable sort

  /** `e` placed after every entry of the ascending list `s` that does not follow it. */
  function Insert(s: seq<Entry>, e: Entry): seq<Entry> {
    if s == [] || Le(Last(s).version, e.version) then s + [e]
    else Insert(Front(s), e) + [Last(s)]
  }

  /** `list.sort(key=...)`: Python's sort is stable. */
  function StableSort(s: seq<Entry>): seq<Entry> {
    if s == [] then [] else Insert(StableSort(Front(s)), Last(s))
  }

  /** The entries of `s` whose version compares as equal to `v`, in their order. */
  ghost function Ties(s: seq<Entry>, v: Version): seq<Entry> {
    if s == [] then []
    else Ties(Front(s), v) + if SameKey(Last(s).version, v) then [Last(s)] else []
  }

  lemma {:induction false} InsertMembers(s: seq<Entry>, e: Entry)
    ensures |Insert(s, e)| == |s| + 1
    ensures forall x :: x in Insert(s, e) <==> x in s || x == e
  {
    if s != [] {
      assert s == Front(s) + [Last(s)];
      InsertMembers(Front(s), e);
    }
  }

  lemma {:induction false} InsertAscending(s: seq<Entry>, e: Entry)
    requires Ascending(s)
    ensures Ascending(Insert(s, e))
  {
    if s == [] {
    } else if Le(Last(s).version, e.version) {
      forall i | 0 <= i < |s| ensures Le(s[i].version, e.version) {
        if i < |s| - 1 { LeTransitive(s[i].version, Last(s).version, e.version); }
      }
    } else {
      InsertAscending(Front(s), e);
      InsertMembers(Front(s), e);
      var r := Insert(Front(s), e);
      LessTrichotomy(e.version, Last(s).version);
      forall i | 0 <= i < |r| ensures Le(r[i].version, Last(s).version) {
        assert r[i] in r;
        if r[i] != e {
          var k :| 0 <= k < |Front(s)| && Front(s)[k] == r[i];
          assert Le(s[k].version, s[|s| - 1].version);
        }
      }
    }
  }

  lemma {:induction false} SortMembers(s: seq<Entry>)
    ensures |StableSort(s)| == |s|
    ensures forall x :: x in StableSort(s) <==> x in s
  {
    if s != [] {
      assert s == Front(s) + [Last(s)];
      SortMembers(Front(s));
      InsertMembers(StableSort(Front(s)), Last(s));
    }
  }

  lemma {:induction false} InsertMultiset(s: seq<Entry>, e: Entry)
    ensures multiset(Insert(s, e)) == multiset(s) + multiset{e}
  {
    if s != [] {
      assert s == Front(s) + [Last(s)];
      InsertMultiset(Front(s), e);
    }
  }

  /** Sorting keeps exactly the entries, each as often as before. */
  lemma {:induction false} SortMultiset(s: seq<Entry>)
    ensures multiset(StableSort(s)) == multiset(s)
  {
    if s != [] {
      assert s == Front(s) + [Last(s)];
      SortMultiset(Front(s));
      InsertMultiset(StableSort(Front(s)), Last(s));
    }
  }

  /** A sorted list is ascending. */
  lemma {:induction false} SortAscending(s: seq<Entry>)
    ensures Ascending(StableSort(s))
  {
    if s != [] {
      SortAscending(Front(s));
      InsertAscending(StableSort(Front(s)), Last(s));
    }
  }

  lemma TiesAppend(s: seq<Entry>, e: Entry, v: Version)
    ensures Ties(s + [e], v) == Ties(s, v) + if SameKey(e.version, v) then [e] else []
  {
    assert Front(s + [e]) == s && Last(s + [e]) == e;
  }

  lemma {:induction false} InsertTies(s: seq<Entry>, e: Entry, v: Version)
    ensures Ties(Insert(s, e), v) == Ties(s, v) + if SameKey(e.version, v) then [e] else []
  {
    if s == [] || Le(Last(s).version, e.version) {
      TiesAppend(s, e, v);
    } else {
      InsertTies(Front(s), e, v);
      TiesAppend(Insert(Front(s), e), Last(s), v);
      LessTrichotomy(e.version, Last(s).version);
    }
  }

  /** Sorting keeps entries whose versions compare as equal in their order of arrival. */
  lemma {:induction false} SortStable(s: seq<Entry>, v: Version)
    ensures Ties(StableSort(s), v) == Ties(s, v)
  {
    if s != [] {
      SortStable(Front(s), v);
      InsertTies(StableSort(Front(s)), Last(s), v);
    }
  }

  lemma {:induction false} TiesFirst(s: seq<Entry>, v: Version)
    ensures Ties(s, v) == [] <==> forall i :: 0 <= i < |s| ==> !SameKey(s[i].version, v)
    ensures Ties(s, v) != [] ==> Last(Ties(s, v)) in s && SameKey(Last(Ties(s, v)).version, v)
  {
    if s != [] {
      TiesFirst(Front(s), v);
      assert forall i :: 0 <= i < |s| - 1 ==> Front(s)[i] == s[i];
    }
  }

  lemma LastsTied(s: seq<Entry>, t: seq<Entry>)
    requires Ascending(s) && Ascending(t) && s != [] && t != []
    requires forall v :: Ties(s, v) == Ties(t, v)
    ensures SameKey(Last(s).version, Last(t).version)
  {
    var a, b := Last(s).version, Last(t).version;
    TiesFirst(s, a); TiesFirst(t, a);
    TiesFirst(s, b); TiesFirst(t, b);
    var i :| 0 <= i < |t| && SameKey(t[i].version, a);
    var j :| 0 <= j < |s| && SameKey(s[j].version, b);
    LessTrichotomy(a, b);
    LessTrichotomy(t[i].version, b);
    LessTrichotomy(s[j].version, a);
  }

  /** An ascending list is fixed by its groups of equal-comparing entries, so
      SortAscending and SortStable together say all there is about `StableSort`. */
  lemma {:induction false} SortUnique(s: seq<Entry>, t: seq<Entry>)
    requires Ascending(s) && Ascending(t)
    requires forall v :: Ties(s, v) == Ties(t, v)
    ensures s == t
  {
    if s == [] || t == [] {
      if s != [] { TiesFirst(s, Last(s).version); TiesFirst(t, Last(s).version); }
      if t != [] { TiesFirst(t, Last(t).version); TiesFirst(s, Last(t).version); }
    } else {
      LastsTied(s, t);
      var a, b := Last(s), Last(t);
      assert Last(Ties(s, a.version)) == a && Last(Ties(t, a.version)) == b;
      forall v ensures Ties(Front(s), v) == Ties(Front(t), v) {
        assert Ties(s, v) == Ties(t, v);
        var x := if SameKey(a.version, v) then [a] else [];
        assert Ties(Front(s), v) == Ties(s, v)[..|Ties(s, v)| - |x|];
        assert Ties(Front(t), v) == Ties(t, v)[..|Ties(t, v)| - |x|];
      }
      SortUnique(Front(s), Front(t));
      assert s == Front(s) + [a] && t == Front(t) + [b];
    }
  }

  lemma {:induction false} SortOfAscending(s: seq<Entry>)
    requires Ascending(s)
    ensures StableSort(s) == s
  {
    if s != [] {
      SortOfAscending(Front(s));
      assert s == Front(s) + [Last(s)];
      if |s| > 1 { assert Le(s[|s| - 2].version, s[|s| - 1].version); }
    }
  }

  // ----------------------------------------------------------------- removal

  /** `s` without the entries of version `v`. */
  function Without(s: seq<Entry>, v: Version): seq<Entry> {
    if s == [] then []
    else Without(Front(s), v) + if Last(s).version == v then [] else [Last(s)]
  }

  lemma {:induction false} WithoutMembers(s: seq<Entry>, v: Version)
    ensures forall x :: x in Without(s, v) <==> x in s && x.version != v
    ensures |Without(s, v)| <= |s|
  {
    if s != [] {
      assert s == Front(s) + [Last(s)];
      WithoutMembers(Front(s), v);
    }
  }

  lemma AbsentSnoc(f: seq<Entry>, x: Entry, v: Version)
    requires !Has(f + [x], v)
    ensures !Has(f, v) && Without(f + [x], v) == Without(f, v) + [x]
  {
    var s := f + [x];
    assert Front(s) == f && Last(s) == x && s[|f|] == x;
    assert forall i :: 0 <= i < |f| ==> s[i] == f[i];
  }

  lemma {:induction false} WithoutAbsent(s: seq<Entry>, v: Version)
    requires !Has(s, v)
    ensures Without(s, v) == s
  {
    if s != [] {
      hide *;
      var f, x := s[..|s| - 1], s[|s| - 1];
      assert s == f + [x];
      AbsentSnoc(f, x, v);
      WithoutAbsent(f, v);
    }
  }

  /** Deleting the entry at `i` removes its version: what the loop of
      `CatalogPart.remove` does to a list of distinct versions. */
  lemma {:induction false} WithoutIsDeletion(s: seq<Entry>, i: nat)
    requires Distinct(s) && i < |s|
    ensures Without(s, s[i].version) == s[..i] + s[i + 1..]
  {
    if i == |s| - 1 {
      assert !Has(Front(s), s[i].version);
      WithoutAbsent(Front(s), s[i].version);
      assert s[..i] + s[i + 1..] == Front(s);
    } else {
      WithoutIsDeletion(Front(s), i);
      assert s[i + 1..] == Front(s)[i + 1..] + [Last(s)];
    }
  }

  lemma {:induction false} WithoutAscending(s: seq<Entry>, v: Version)
    requires Ascending(s)
    ensures Ascending(Without(s, v))
  {
    if s != [] {
      WithoutAscending(Front(s), v);
      WithoutMembers(Front(s), v);
      var r := Without(Front(s), v);
      forall i | 0 <= i < |r| ensures Le(r[i].version, Last(s).version) {
        assert r[i] in r;
        var k :| 0 <= k < |Front(s)| && Front(s)[k] == r[i];
        assert Le(s[k].version, s[|s| - 1].version);
      }
    }
  }

  lemma {:induction false} WithoutDistinct(s: seq<Entry>, v: Version)
    requires Distinct(s)
    ensures Distinct(Without(s, v)) && !Has(Without(s, v), v)
  {
    if s != [] {
      WithoutDistinct(Front(s), v);
      WithoutMembers(Front(s), v);
      var r := Without(Front(s), v);
      forall i | 0 <= i < |r| ensures r[i].version != Last(s).version {
        assert r[i] in r;
      }
    }
  }

  lemma {:induction false} InsertDistinct(s: seq<Entry>, e: Entry)
    requires Distinct(s) && !Has(s, e.version)
    ensures Distinct(Insert(s, e))
  {
    if s != [] && !Le(Last(s).version, e.version) {
      assert forall i :: 0 <= i < |Front(s)| ==> Front(s)[i] == s[i];
      InsertDistinct(Front(s), e);
      InsertMembers(Front(s), e);
      var r := Insert(Front(s), e);
      forall i | 0 <= i < |r| ensures r[i].version != Last(s).version {
        assert r[i] in r;
      }
    }
  }

  lemma SortHas(s: seq<Entry>, v: Version)
    ensures Has(StableSort(s), v) <==> Has(s, v)
  {
    SortMembers(s);
    if Has(s, v) {
      var i :| 0 <= i < |s| && s[i].version == v;
      assert s[i] in StableSort(s);
    }
    if Has(StableSort(s), v) {
      var i :| 0 <= i < |StableSort(s)| && StableSort(s)[i].version == v;
      assert StableSort(s)[i] in s;
    }
  }

  lemma {:induction false} SortDistinct(s: seq<Entry>)
    requires Distinct(s)
    ensures Distinct(StableSort(s))
  {
    if s != [] {
      SortDistinct(Front(s));
      SortHas(Front(s), Last(s).version);
      assert !Has(Front(s), Last(s).version);
      InsertDistinct(StableSort(Front(s)), Last(s));
    }
  }

  // ------------------------------------------------- sorting and the updates

  lemma WithoutSnoc(s: seq<Entry>, e: Entry, v: Version)
    ensures Without(s + [e], v) == Without(s, v) + if e.version == v then [] else [e]
  {
    assert Front(s + [e]) == s && Last(s + [e]) == e;
  }

  lemma InsertSnoc(s: seq<Entry>, l: Entry, e: Entry)
    ensures Insert(s + [l], e) == if Le(l.version, e.version) then s + [l] + [e] else Insert(s, e) + [l]
  {
    assert Front(s + [l]) == s && Last(s + [l]) == l;
  }

  lemma InsertLast(s: seq<Entry>, e: Entry)
    requires forall x :: x in s ==> Le(x.version, e.version)
    ensures Insert(s, e) == s + [e]
  {
    if s != [] { assert Last(s) in s; }
  }

  lemma LastWithout(s: seq<Entry>, e: Entry, v: Version)
    requires Ascending(s) && s != [] && Le(Last(s).version, e.version)
    ensures Insert(Without(s, v), e) == Without(s, v) + [e]
  {
    WithoutMembers(s, v);
    forall x | x in Without(s, v) ensures Le(x.version, e.version) {
      var k :| 0 <= k < |s| && s[k] == x;
      if k < |s| - 1 { LeTransitive(s[k].version, Last(s).version, e.version); }
    }
    InsertLast(Without(s, v), e);
  }

  /** The two cases of InsertWithout: removing the entry just inserted, and another one. */
  ghost predicate Commutes(s: seq<Entry>, e: Entry, v: Version) {
    Without(Insert(s, e), v) == if e.version == v then Without(s, v) else Insert(Without(s, v), e)
  }

  lemma {:induction false} InsertWithout(s: seq<Entry>, e: Entry, v: Version)
    requires Ascending(s)
    ensures Commutes(s, e, v)
  {
    if s == [] {
      WithoutSnoc([], e, v);
    } else {
      var l := Last(s);
      if Le(l.version, e.version) {
        WithoutSnoc(s, e, v);
        LastWithout(s, e, v);
      } else {
        InsertWithout(Front(s), e, v);
        var f, r := Without(Front(s), v), Insert(Front(s), e);
        WithoutSnoc(r, l, v);
        InsertSnoc(f, l, e);
        assert Insert(s, e) == r + [l];
        assert Without(s, v) == f + if l.version == v then [] else [l];
        if l.version == v {
          assert Without(r + [l], v) == Without(r, v) && Without(s, v) == f;
        } else {
          assert Without(r + [l], v) == Without(r, v) + [l] && Without(s, v) == f + [l];
        }
      }
    }
  }

  lemma SortSnoc(s: seq<Entry>, e: Entry)
    ensures StableSort(s + [e]) == Insert(StableSort(s), e)
  {
    assert Front(s + [e]) == s && Last(s + [e]) == e;
  }

  /** Sorting and removing may be done in either order. */
  lemma {:induction false} SortWithout(s: seq<Entry>, v: Version)
    ensures StableSort(Without(s, v)) == Without(StableSort(s), v)
  {
    if s != [] {
      var l, f := Last(s), StableSort(Front(s));
      SortWithout(Front(s), v);
      SortAscending(Front(s));
      InsertWithout(f, l, v);
      SortSnoc(Without(Front(s), v), l);
      assert StableSort(s) == Insert(f, l);
      if l.version == v {
        assert Without(s, v) == Without(Front(s), v);
      } else {
        assert Without(s, v) == Without(Front(s), v) + [l];
      }
    }
  }

  /** Sorting once after an append is the same as sorting before it as well. */
  lemma SortAppend(s: seq<Entry>, e: Entry)
    ensures StableSort(s + [e]) == StableSort(StableSort(s) + [e])
  {
    var t := StableSort(s);
    SortAscending(s);
    SortOfAscending(t);
    SortSnoc(s, e);
    SortSnoc(t, e);
  }
}
