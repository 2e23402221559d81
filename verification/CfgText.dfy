/** Splitting and joining texts at separators (src/modules/cfgfiles.py). */
module CfgTexts {
  import opened Common

  const BACKSLASH: char := '\\'

  /** `c.join(ps)` */
  function Join(ps: seq<string>, c: char): string {
    if ps == [] then ""
    else if |ps| == 1 then ps[0]
    else Join(Front(ps), c) + [c] + Last(ps)
  }

  /** `s.split(c)` */
  function Split(s: string, c: char): (r: seq<string>)
    ensures r != []
  {
    if s == "" then [""]
    else
      var r := Split(Front(s), c);
      if Last(s) == c then r + [""] else Front(r) + [Last(r) + [Last(s)]]
  }

  lemma JoinSnoc(ps: seq<string>, p: string, c: char)
    requires ps != []
    ensures Join(ps + [p], c) == Join(ps, c) + [c] + p
  {
    assert Front(ps + [p]) == ps;
  }

  lemma JoinLonger(ps: seq<string>, x: char, c: char)
    requires ps != []
    ensures Join(Front(ps) + [Last(ps) + [x]], c) == Join(ps, c) + [x]
  {
    var qs := Front(ps) + [Last(ps) + [x]];
    assert Front(qs) == Front(ps);
    if |ps| > 1 { assert Join(ps, c) + [x] == Join(Front(ps), c) + [c] + (Last(ps) + [x]); }
  }

  /** Splitting loses nothing. */
  lemma {:induction false} JoinSplit(s: string, c: char)
    ensures Join(Split(s, c), c) == s
  {
    if s != "" {
      var r := Split(Front(s), c);
      JoinSplit(Front(s), c);
      JoinSnoc(r, "", c);
      JoinLonger(r, Last(s), c);
      assert s == Front(s) + [Last(s)];
    }
  }

  lemma {:induction false} SplitPieces(s: string, c: char)
    ensures forall i :: 0 <= i < |Split(s, c)| ==> c !in Split(s, c)[i]
  {
    if s != "" { SplitPieces(Front(s), c); }
  }

  lemma {:induction false} SplitAfter(a: string, c: char, b: string)
    requires c !in b
    ensures Split(a + [c] + b, c) == Split(a, c) + [b]
  {
    var s := a + [c] + b;
    if b == "" {
      assert Front(s) == a && Last(s) == c;
    } else {
      assert Front(s) == a + [c] + Front(b) && Last(s) == Last(b);
      assert Last(b) in b && b == Front(b) + [Last(b)];
      SplitAfter(a, c, Front(b));
      var r := Split(a, c) + [Front(b)];
      assert Front(r) == Split(a, c) && Last(r) == Front(b);
    }
  }

  lemma {:induction false} SplitWhole(b: string, c: char)
    requires c !in b
    ensures Split(b, c) == [b]
  {
    if b != "" {
      assert Last(b) in b && b == Front(b) + [Last(b)];
      SplitWhole(Front(b), c);
    }
  }

  lemma SplitSnoc(s: string, x: char, c: char)
    ensures var r := Split(s, c); Split(s + [x], c) == if x == c then r + [""] else Front(r) + [Last(r) + [x]]
    ensures Split("", c) == [""]
  {
    assert Front(s + [x]) == s && Last(s + [x]) == x;
  }

  lemma PieceBefore(a: string, q: seq<string>, last: string)
    requires q != []
    ensures ([a] + q) + [""] == [a] + (q + [""]) && Last([a] + q) == Last(q)
    ensures Front([a] + q) + [last] == [a] + (Front(q) + [last])
  {
  }

  lemma {:induction false} SplitBefore(a: string, c: char, b: string)
    requires c !in a
    ensures Split(a + [c] + b, c) == [a] + Split(b, c)
  {
    hide Split, Front, Last;
    if b == "" {
      assert a + [c] + b == a + [c];
      SplitWhole(a, c);
      SplitSnoc(a, c, c);
    } else {
      var f, x := b[..|b| - 1], b[|b| - 1];
      SplitBefore(a, c, f);
      assert a + [c] + b == (a + [c] + f) + [x] && b == f + [x];
      SplitSnoc(a + [c] + f, x, c);
      SplitSnoc(f, x, c);
      PieceBefore(a, Split(f, c), Last(Split(f, c)) + [x]);
    }
  }

  lemma {:induction false} SplitJoinClean(ps: seq<string>, c: char)
    requires ps != [] && forall i :: 0 <= i < |ps| ==> c !in ps[i]
    ensures Split(Join(ps, c), c) == ps
  {
    if |ps| == 1 {
      SplitWhole(ps[0], c);
    } else {
      var f, b := Front(ps), Last(ps);
      assert b == ps[|ps| - 1];
      SplitJoinClean(f, c);
      hide Split;
      SplitAfter(Join(f, c), c, b);
      assert ps == f + [b];
    }
  }

  /** Joined fields split into themselves exactly when none contains the separator. */
  lemma SplitJoin(ps: seq<string>, c: char)
    ensures Split(Join(ps, c), c) == ps <==> ps != [] && forall i :: 0 <= i < |ps| ==> c !in ps[i]
  {
    SplitPieces(Join(ps, c), c);
    if ps != [] && forall i :: 0 <= i < |ps| ==> c !in ps[i] { SplitJoinClean(ps, c); }
  }

  // ------------------------------------------------- splitting at bare separators

  /** `(?<=[^\\])c` matches at `i`: a separator behind some character that is not a backslash. */
  predicate SplitPoint(s: string, i: int, c: char) {
    0 < i < |s| && s[i] == c && s[i - 1] != BACKSLASH
  }

  /** `re.split("(?<=[^\\])c", s)` */
  function LookSplit(s: string, c: char): (r: seq<string>)
    ensures r != []
  {
    if s == "" then [""]
    else
      var r := LookSplit(Front(s), c);
      if SplitPoint(s, |s| - 1, c) then r + [""] else Front(r) + [Last(r) + [Last(s)]]
  }

  /** No separator inside the field would split it; the first field may begin with one. */
  ghost predicate Bare(p: string, c: char, first: bool) {
    (p != "" && p[0] == c ==> first) && forall j :: 0 < j < |p| && p[j] == c ==> p[j - 1] == BACKSLASH
  }

  /** The fields that a line of several fields can carry: the first is not empty,
      and none but the last ends in a backslash. */
  ghost predicate Splittable(ps: seq<string>, c: char) {
    && ps != [] && (|ps| > 1 ==> ps[0] != "")
    && (forall i :: 0 <= i < |ps| ==> Bare(ps[i], c, i == 0))
    && (forall i :: 0 <= i < |ps| - 1 && ps[i] != "" ==> Last(ps[i]) != BACKSLASH)
  }

  lemma {:induction false} JoinLookSplit(s: string, c: char)
    ensures Join(LookSplit(s, c), c) == s
  {
    if s != "" {
      var r := LookSplit(Front(s), c);
      JoinLookSplit(Front(s), c);
      JoinSnoc(r, "", c);
      JoinLonger(r, Last(s), c);
      assert s == Front(s) + [Last(s)];
    }
  }

  /** What a joined text ends with: its last field, behind a separator unless there is only one field. */
  lemma JoinEnd(ps: seq<string>, c: char)
    requires ps != []
    ensures Join(ps, c) == "" <==> |ps| == 1 && ps[0] == ""
    ensures Join(ps, c) != "" ==> Last(Join(ps, c)) == if Last(ps) != "" then Last(Last(ps)) else c
  {
  }

  /** One more character keeps a field bare unless it is a separator that would split it. */
  lemma BareSnoc(p: string, x: char, c: char, first: bool)
    ensures Bare(p + [x], c, first) <==>
            Bare(p, c, first) && (x == c ==> if p == "" then first else Last(p) == BACKSLASH)
  {
    var q := p + [x];
    assert q[|p|] == x && forall j :: 0 <= j < |p| ==> q[j] == p[j];
    if Bare(q, c, first) {
      forall j | 0 < j < |p| && p[j] == c ensures p[j - 1] == BACKSLASH { assert q[j] == c && q[j - 1] == p[j - 1]; }
      if x == c && p != "" { assert q[|p| - 1] == Last(p); }
    }
  }

  /** One more character keeps the pieces fit for joining. */
  lemma PieceGrows(r: seq<string>, s: string, c: char)
    requires s != "" && c != BACKSLASH && Splittable(r, c) && Join(r, c) == Front(s)
    ensures Splittable(if SplitPoint(s, |s| - 1, c) then r + [""] else Front(r) + [Last(r) + [Last(s)]], c)
  {
    JoinEnd(r, c);
    if |s| > 1 { assert s[|s| - 2] == Last(Front(s)); }
    if SplitPoint(s, |s| - 1, c) {
      assert Bare("", c, false);
    } else {
      var p, x := Last(r), Last(s);
      assert Bare(r[|r| - 1], c, |r| == 1);
      BareSnoc(p, x, c, |r| == 1);
      hide Bare, Join;
    }
  }

  lemma {:induction false} LookPieces(s: string, c: char)
    requires c != BACKSLASH
    ensures Splittable(LookSplit(s, c), c)
  {
    if s != "" {
      var r := LookSplit(Front(s), c);
      LookPieces(Front(s), c);
      JoinLookSplit(Front(s), c);
      JoinEnd(r, c);
      if |s| > 1 { assert s[|s| - 2] == Last(Front(s)); }
      var q := if SplitPoint(s, |s| - 1, c) then r + [""] else Front(r) + [Last(r) + [Last(s)]];
      assert q == LookSplit(s, c);
      PieceGrows(r, s, c);
    }
  }

  lemma BareFront(b: string, c: char, first: bool)
    requires b != "" && Bare(b, c, first)
    ensures Bare(Front(b), c, first)
  {
    forall j | 0 < j < |Front(b)| && Front(b)[j] == c ensures Front(b)[j - 1] == BACKSLASH { assert b[j] == c; }
  }

  lemma {:induction false} LookSplitAfter(a: string, c: char, b: string)
    requires a != "" && Last(a) != BACKSLASH && c != BACKSLASH && Bare(b, c, false)
    ensures LookSplit(a + [c] + b, c) == LookSplit(a, c) + [b]
  {
    var s := a + [c] + b;
    if b == "" {
      assert Front(s) == a && Last(s) == c && s[|s| - 2] == Last(a);
    } else {
      assert Front(s) == a + [c] + Front(b) && Last(s) == Last(b) && b == Front(b) + [Last(b)];
      BareFront(b, c, false);
      LookSplitAfter(a, c, Front(b));
      var r := LookSplit(a, c) + [Front(b)];
      assert Front(r) == LookSplit(a, c) && Last(r) == Front(b);
      BareSnoc(Front(b), Last(b), c, false);
      if Last(b) == c { assert s[|s| - 2] == Last(Front(b)); }
    }
  }

  lemma {:induction false} LookSplitWhole(b: string, c: char)
    requires Bare(b, c, true)
    ensures LookSplit(b, c) == [b]
  {
    if b != "" {
      assert b == Front(b) + [Last(b)];
      BareFront(b, c, true);
      LookSplitWhole(Front(b), c);
      if Last(b) == c { assert b[|b| - 1] == c; }
    }
  }

  lemma SplittableFront(ps: seq<string>, c: char)
    requires |ps| > 1 && Splittable(ps, c)
    ensures Splittable(Front(ps), c) && Bare(Last(ps), c, false)
    ensures Last(Front(ps)) != "" ==> Last(Last(Front(ps))) != BACKSLASH
    ensures |ps| == 2 ==> Last(Front(ps)) != ""
  {
    hide Bare;
    assert ps[|ps| - 1] == Last(ps) && ps[|ps| - 2] == Last(Front(ps));
  }

  lemma {:induction false} LookSplitClean(ps: seq<string>, c: char)
    requires Splittable(ps, c) && c != BACKSLASH
    ensures LookSplit(Join(ps, c), c) == ps
  {
    if |ps| == 1 {
      LookSplitWhole(ps[0], c);
    } else {
      var f, b := Front(ps), Last(ps);
      SplittableFront(ps, c);
      LookSplitClean(f, c);
      JoinEnd(f, c);
      hide Bare, Splittable, Join, LookSplit;
      LookSplitAfter(Join(f, c), c, b);
      JoinSnoc(f, b, c);
      assert ps == f + [b];
    }
  }

  /** Joined fields split into themselves at bare separators exactly when they are splittable. */
  lemma LookSplitJoin(ps: seq<string>, c: char)
    requires c != BACKSLASH
    ensures LookSplit(Join(ps, c), c) == ps <==> Splittable(ps, c)
  {
    LookPieces(Join(ps, c), c);
    if Splittable(ps, c) { LookSplitClean(ps, c); }
  }
}
