/** Records of the user_attr file, whose last column is a dictionary
    (src/modules/cfgfiles.py, UserattrFile). */
module UserAttrs {
  import opened Common
  import opened CfgTexts

  /** A key of the dictionary with its list of values. */
  datatype Attr = Attr(key: string, values: seq<string>)

  /** What `splitline` gives: unparsed columns when there are not five, four columns
      and a dictionary (in its order of insertion), or an IndexError. */
  datatype Line = Columns(cols: seq<string>) | Record(fields: seq<string>, attrs: seq<Attr>) | IndexError

  ghost predicate DistinctKeys(d: seq<Attr>) {
    forall i, j :: 0 <= i < j < |d| ==> d[i].key != d[j].key
  }

  function IndexOf(d: seq<Attr>, key: string): (i: nat)
    ensures i <= |d| && (i < |d| ==> d[i].key == key) && forall j :: 0 <= j < i ==> d[j].key != key
  {
    if d == [] || d[0].key == key then 0 else 1 + IndexOf(d[1..], key)
  }

  /** `d[key] = values` */
  function Put(d: seq<Attr>, key: string, values: seq<string>): seq<Attr> {
    var i := IndexOf(d, key);
    if i < |d| then d[i := Attr(key, values)] else d + [Attr(key, values)]
  }

  // ------------------------------------------------------------------- splitting

  function ParseAttrs(pieces: seq<string>): Option<seq<Attr>> {
    if pieces == [] then Some([])
    else
      var d, a := ParseAttrs(Front(pieces)), LookSplit(Last(pieces), '=');
      if d.None? || |a| < 2 then None else Some(Put(d.value, a[0], Split(a[1], ',')))
  }

  function ParseLine(line: string): Line {
    var cols := LookSplit(line, ':');
    if |cols| != 5 then Columns(cols)
    else
      var d := ParseAttrs(LookSplit(cols[4], ';'));
      if d.None? then IndexError else Record(cols[..4], d.value)
  }

  /** A piece that fails to parse fails the whole column. */
  lemma {:induction false} ParseFails(pieces: seq<string>, i: nat)
    requires i <= |pieces| && ParseAttrs(pieces[..i]).None?
    ensures ParseAttrs(pieces).None?
  {
    if i < |pieces| {
      assert Front(pieces)[..i] == pieces[..i];
      ParseFails(Front(pieces), i);
    } else {
      assert pieces[..i] == pieces;
    }
  }

  method SplitLine(line: string) returns (r: Line)
    ensures r == ParseLine(line)
  {
    hide LookSplit, Split, Put;
    var cols := LookSplit(line, ':');
    if |cols| != 5 { return Columns(cols); }
    var attributes := LookSplit(cols[4], ';');
    var d: seq<Attr> := [];
    assert attributes[..0] == [];
    for i := 0 to |attributes|
      invariant ParseAttrs(attributes[..i]) == Some(d)
    {
      var a := LookSplit(attributes[i], '=');
      assert Front(attributes[..i + 1]) == attributes[..i] && Last(attributes[..i + 1]) == attributes[i];
      if |a| < 2 {
        ParseFails(attributes, i + 1);
        return IndexError;
      }
      d := Put(d, a[0], Split(a[1], ','));
    }
    assert attributes[..|attributes|] == attributes;
    r := Record(cols[..4], d);
  }

  // -------------------------------------------------------------------- printing

  function AttrText(a: Attr): string {
    a.key + "=" + Join(a.values, ',')
  }

  function AttrTexts(d: seq<Attr>): (r: seq<string>)
    ensures |r| == |d| && forall i :: 0 <= i < |d| ==> r[i] == AttrText(d[i])
  {
    seq(|d|, i requires 0 <= i < |d| => AttrText(d[i]))
  }

  /** `valuetostr` */
  function PrintRecord(fields: seq<string>, d: seq<Attr>): string {
    Join(fields + [Join(AttrTexts(d), ';')], ':')
  }

  // ------------------------------------------------------------------ round trip

  ghost predicate PrintableAttr(a: Attr) {
    && Splittable([a.key, Join(a.values, ',')], '=')
    && a.values != [] && forall i :: 0 <= i < |a.values| ==> ',' !in a.values[i]
  }

  /** What can be told of a record before it is printed. */
  ghost predicate Printable(fields: seq<string>, d: seq<Attr>) {
    && Splittable(fields + [Join(AttrTexts(d), ';')], ':')
    && d != [] && Splittable(AttrTexts(d), ';')
    && forall i :: 0 <= i < |d| ==> PrintableAttr(d[i])
  }

  /** One entry of the dictionary is read back from its text. */
  lemma AttrBack(a: Attr)
    ensures LookSplit(AttrText(a), '=') == [a.key, Join(a.values, ',')] && Split(Join(a.values, ','), ',') == a.values
            <==> PrintableAttr(a)
  {
    var v := Join(a.values, ',');
    var both := [a.key, v];
    assert Join(both, '=') == a.key + "=" + v by {
      assert Front(both) == [a.key];
      assert Join([a.key], '=') == a.key;
    }
    LookSplitJoin(both, '=');
    SplitJoin(a.values, ',');
  }

  lemma {:induction false} AttrsParse(d: seq<Attr>)
    requires DistinctKeys(d) && forall i :: 0 <= i < |d| ==> PrintableAttr(d[i])
    ensures ParseAttrs(AttrTexts(d)) == Some(d)
  {
    hide PrintableAttr, LookSplit, Split, AttrText, Join;
    if d != [] {
      AttrsParse(Front(d));
      AttrBack(Last(d));
      assert PrintableAttr(d[|d| - 1]);
      assert Front(AttrTexts(d)) == AttrTexts(Front(d));
      assert Last(AttrTexts(d)) == AttrText(Last(d));
      assert IndexOf(Front(d), Last(d).key) == |Front(d)|;
      assert d == Front(d) + [Last(d)];
    }
  }

  ghost predicate ReadBack(d: seq<Attr>, pieces: seq<string>) {
    AttrTexts(d) == pieces && forall i :: 0 <= i < |d| ==> PrintableAttr(d[i])
  }

  // Texts are weighed to see that nothing of them was dropped in splitting.

  function Weight(ps: seq<string>): nat {
    if ps == [] then 0 else Weight(Front(ps)) + |Last(ps)| + 1
  }

  lemma {:induction false} JoinWeight(ps: seq<string>, c: char)
    requires ps != []
    ensures |Join(ps, c)| + 1 == Weight(ps)
  {
    if |ps| > 1 { JoinWeight(Front(ps), c); }
  }

  lemma {:induction false} WeightPut(ps: seq<string>, i: nat, p: string)
    requires i < |ps|
    ensures Weight(ps[i := p]) == Weight(ps) - |ps[i]| + |p|
  {
    if i < |ps| - 1 {
      WeightPut(Front(ps), i, p);
      assert Front(ps[i := p]) == Front(ps)[i := p];
    } else {
      assert Front(ps[i := p]) == Front(ps);
    }
  }

  lemma {:induction false} WeightPrefix(ps: seq<string>, n: nat)
    requires n <= |ps|
    ensures Weight(ps) >= Weight(ps[..n]) + (|ps| - n)
  {
    if n < |ps| {
      WeightPrefix(Front(ps), n);
      assert Front(ps)[..n] == ps[..n];
    } else {
      assert ps[..n] == ps;
    }
  }

  /** A piece weighs more than the entry read from it when it had further parts. */
  lemma PieceWeight(piece: string, a: seq<string>)
    requires a == LookSplit(piece, '=') && |a| >= 2
    ensures |piece| >= |a[0]| + 1 + |a[1]|
    ensures |piece| == |a[0]| + 1 + |a[1]| ==> a == [a[0], a[1]] && piece == a[0] + "=" + a[1]
  {
    JoinLookSplit(piece, '=');
    JoinWeight(a, '=');
    hide LookSplit;
    WeightPrefix(a, 2);
    assert Front(a[..2]) == [a[0]] && Last(a[..2]) == a[1];
    assert Front([a[0]]) == [];
    if |a| == 2 {
      assert a == [a[0], a[1]];
      assert Join([a[0]], '=') == a[0];
    }
  }

  lemma EntryRead(piece: string, a: seq<string>)
    requires a == LookSplit(piece, '=') && |a| >= 2
    ensures var e := Attr(a[0], Split(a[1], ','));
            && |AttrText(e)| <= |piece| && (|AttrText(e)| == |piece| ==> AttrText(e) == piece && PrintableAttr(e))
  {
    var e := Attr(a[0], Split(a[1], ','));
    PieceWeight(piece, a);
    JoinSplit(a[1], ',');
    AttrBack(e);
    hide LookSplit, Split, PrintableAttr;
  }

  lemma WeightSnoc(ps: seq<string>, p: string)
    ensures Weight(ps + [p]) == Weight(ps) + |p| + 1
  {
    assert Front(ps + [p]) == ps;
  }

  lemma PutTexts(d: seq<Attr>, i: nat, e: Attr)
    requires i < |d|
    ensures AttrTexts(d[i := e]) == AttrTexts(d)[i := AttrText(e)]
  {
    hide AttrText;
  }

  lemma SnocTexts(d: seq<Attr>, e: Attr, front: seq<string>)
    ensures AttrTexts(d + [e]) == AttrTexts(d) + [AttrText(e)]
    ensures ReadBack(d, front) && PrintableAttr(e) ==> ReadBack(d + [e], front + [AttrText(e)])
  {
    hide AttrText, PrintableAttr;
  }

  lemma PutWeight(d: seq<Attr>, front: seq<string>, piece: string, e: Attr)
    requires Weight(AttrTexts(d)) <= Weight(front) && (Weight(AttrTexts(d)) == Weight(front) ==> ReadBack(d, front))
    requires |AttrText(e)| <= |piece| && (|AttrText(e)| == |piece| ==> AttrText(e) == piece && PrintableAttr(e))
    ensures var d' := Put(d, e.key, e.values);
            && Weight(AttrTexts(d')) <= Weight(front + [piece])
            && (Weight(AttrTexts(d')) == Weight(front + [piece]) ==> ReadBack(d', front + [piece]))
            && d' != []
  {
    var i := IndexOf(d, e.key);
    hide PrintableAttr, AttrText, AttrTexts, ReadBack, Weight;
    WeightSnoc(front, piece);
    if i < |d| {
      PutTexts(d, i, e);
      WeightPut(AttrTexts(d), i, AttrText(e));
    } else {
      SnocTexts(d, e, front);
      WeightSnoc(AttrTexts(d), AttrText(e));
    }
  }

  /** The dictionary weighs no more than the pieces it was read from; if it weighs
      as much, they are its entries' texts, each of a key and values. */
  lemma {:induction false} ParseWeight(pieces: seq<string>)
    requires ParseAttrs(pieces).Some?
    ensures var d := ParseAttrs(pieces).value;
            && Weight(AttrTexts(d)) <= Weight(pieces)
            && (Weight(AttrTexts(d)) == Weight(pieces) ==> ReadBack(d, pieces))
            && (pieces != [] ==> d != [])
  {
    if pieces != [] {
      var piece, a := Last(pieces), LookSplit(Last(pieces), '=');
      ParseWeight(Front(pieces));
      assert pieces == Front(pieces) + [piece];
      assert |a| >= 2 && ParseAttrs(pieces).value == Put(ParseAttrs(Front(pieces)).value, a[0], Split(a[1], ','));
      hide *;
      PieceWeight(piece, a);
      EntryRead(piece, a);
      PutWeight(ParseAttrs(Front(pieces)).value, Front(pieces), piece, Attr(a[0], Split(a[1], ',')));
    }
  }

  lemma TextsNonEmpty(d: seq<Attr>)
    ensures AttrTexts(d) == [] <==> d == []
  {
  }

  lemma SamePrefix(a: string, x: string, y: string)
    requires a + x == a + y
    ensures x == y
  {
    assert x == (a + x)[|a|..] == (a + y)[|a|..] == y;
  }

  lemma ColumnsBack(fields: seq<string>, d: seq<Attr>)
    requires |fields| == 4 && ParseLine(PrintRecord(fields, d)) == Record(fields, d)
    ensures Printable(fields, d)
  {
    hide LookSplit, Splittable, PrintableAttr, ParseAttrs, AttrTexts, Join;
    var text, line := Join(AttrTexts(d), ';'), PrintRecord(fields, d);
    var cols := LookSplit(line, ':');
    JoinLookSplit(line, ':');
    assert cols == fields + [cols[4]];
    JoinSnoc(fields, text, ':');
    JoinSnoc(fields, cols[4], ':');
    SamePrefix(Join(fields, ':') + ":", text, cols[4]);
    LookSplitJoin(cols, ':');
    var pieces := LookSplit(text, ';');
    JoinLookSplit(text, ';');
    ParseWeight(pieces);
    JoinWeight(pieces, ';');
    TextsNonEmpty(d);
    JoinWeight(AttrTexts(d), ';');
    LookSplitJoin(pieces, ';');
  }

  /** Printing a record and splitting the line gives the record back exactly when it
      is printable: through three nested splits at bare separators, and one at commas. */
  lemma RoundTrip(fields: seq<string>, d: seq<Attr>)
    requires |fields| == 4 && DistinctKeys(d)
    ensures ParseLine(PrintRecord(fields, d)) == Record(fields, d) <==> Printable(fields, d)
  {
    hide LookSplit, Splittable, PrintableAttr, ParseAttrs, AttrTexts, Join;
    var text := Join(AttrTexts(d), ';');
    var all := fields + [text];
    LookSplitJoin(all, ':');
    LookSplitJoin(AttrTexts(d), ';');
    assert all[..4] == fields;
    if Printable(fields, d) { AttrsParse(d); }
    if ParseLine(PrintRecord(fields, d)) == Record(fields, d) { ColumnsBack(fields, d); }
  }
}
