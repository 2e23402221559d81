/** Line-oriented configuration files, edited record by record
    (src/modules/cfgfiles.py, CfgFile). */
module CfgFiles {
  import opened Common
  import opened CfgTexts

  /** A record: one text for each column. */
  type Columns = seq<string>

  /** What the index is keyed by: the number of a line that is no record, or the
      values of a record's key columns. */
  datatype Key = LineNo(number: nat) | KeyValues(values: seq<string>)

  /** An indexed line. */
  datatype Slot = Slot(line: string, record: Option<Columns>, lineno: nat)

  /** How the lines of a file are read. */
  datatype Format = Format(separator: char, columns: seq<string>, keys: seq<nat>, comment: set<char>)

  predicate ValidFormat(f: Format) {
    f.columns != [] && forall i :: 0 <= i < |f.keys| ==> f.keys[i] < |f.columns|
  }

  predicate IsComment(f: Format, line: string) {
    line != "" && line[0] in f.comment
  }

  /** The record on a line; None for comments and lines with another number of columns. */
  function Parse(f: Format, line: string): (r: Option<Columns>)
    ensures r.Some? ==> |r.value| == |f.columns|
  {
    if IsComment(f, line) then None
    else
      var cols := Split(line, f.separator);
      if |cols| == |f.columns| then Some(cols) else None
  }

  function KeyOf(f: Format, r: Columns): Key {
    KeyValues(seq(|f.keys|, i requires 0 <= i < |f.keys| => if f.keys[i] < |r| then r[f.keys[i]] else ""))
  }

  function KeyFor(f: Format, s: Slot): Key {
    if s.record.Some? then KeyOf(f, s.record.value) else LineNo(s.lineno)
  }

  /** What holds of the index between calls: every slot under its own key, no line
      number twice, and the line of a record made of its columns. */
  ghost predicate ValidIndex(f: Format, index: map<Key, Slot>) {
    && (forall k :: k in index ==> KeyFor(f, index[k]) == k)
    && (forall k :: k in index && index[k].record.Some? ==>
          |index[k].record.value| == |f.columns| && index[k].line == Join(index[k].record.value, f.separator))
    && (forall j, k :: j in index && k in index && index[j].lineno == index[k].lineno ==> j == k)
  }

  /** A valid index stays valid when the slot of one key is replaced. */
  lemma PutKeeps(f: Format, index: map<Key, Slot>, k: Key, s: Slot)
    requires ValidIndex(f, index) && KeyFor(f, s) == k
    requires s.record.Some? ==> |s.record.value| == |f.columns| && s.line == Join(s.record.value, f.separator)
    requires forall j :: j in index && j != k ==> index[j].lineno != s.lineno
    ensures ValidIndex(f, index[k := s])
  {
    hide KeyFor, Join;
  }

  // -------------------------------------------------------- the lines of an index

  ghost predicate InOrder(slots: seq<Slot>) {
    forall i, j :: 0 <= i < j < |slots| ==> slots[i].lineno < slots[j].lineno
  }

  ghost predicate Holds(index: map<Key, Slot>, s: Slot) {
    exists k :: k in index && index[k] == s
  }

  /** `slots` are those of the index, in the order of their line numbers. */
  ghost predicate Listed(index: map<Key, Slot>, slots: seq<Slot>) {
    InOrder(slots) && forall s :: s in slots <==> Holds(index, s)
  }

  lemma LastHighest(a: seq<Slot>, s: Slot)
    requires InOrder(a) && s in a
    ensures s == Last(a) || s.lineno < Last(a).lineno
  {
  }

  lemma SameLast(a: seq<Slot>, b: seq<Slot>)
    requires a != [] && b != [] && InOrder(a) && InOrder(b) && forall s :: s in a <==> s in b
    ensures Last(a) == Last(b)
  {
    assert Last(a) in b && Last(b) in a;
    LastHighest(b, Last(a));
    LastHighest(a, Last(b));
  }

  lemma EmptyIff(a: seq<Slot>)
    ensures a == [] <==> forall s :: s !in a
  {
    if a != [] { assert a[0] in a; }
  }

  lemma FrontMembers(a: seq<Slot>)
    requires a != [] && InOrder(a)
    ensures InOrder(Front(a))
    ensures forall s :: s in Front(a) <==> s in a && s != Last(a)
  {
    forall s | s in Front(a) ensures s in a && s != Last(a) {
      var i :| 0 <= i < |a| - 1 && a[i] == s;
    }
  }

  /** There is only one such list. */
  lemma {:induction false} ListedUnique(a: seq<Slot>, b: seq<Slot>)
    requires InOrder(a) && InOrder(b) && forall s :: s in a <==> s in b
    ensures a == b
  {
    hide InOrder;
    EmptyIff(a);
    EmptyIff(b);
    if a != [] {
      SameLast(a, b);
      FrontMembers(a);
      FrontMembers(b);
      ListedUnique(Front(a), Front(b));
      assert a == Front(a) + [Last(a)] && b == Front(b) + [Last(b)];
    }
  }

  // --------------------------------------------------------------------- reading

  /** The index after the lines of a file were read: a line with the key of an
      earlier one takes its place. */
  function Reading(f: Format, lines: seq<string>): map<Key, Slot> {
    if lines == [] then map[]
    else
      var s := Slot(Last(lines), Parse(f, Last(lines)), |lines|);
      Reading(f, Front(lines))[KeyFor(f, s) := s]
  }

  lemma ParseJoins(f: Format, line: string)
    ensures Parse(f, line).Some? ==> line == Join(Parse(f, line).value, f.separator)
  {
    JoinSplit(line, f.separator);
  }

  lemma ParseLength(f: Format, line: string)
    ensures Parse(f, line).Some? ==> |Parse(f, line).value| == |f.columns|
  {
  }

  lemma {:induction false} ReadingValid(f: Format, lines: seq<string>)
    ensures ValidIndex(f, Reading(f, lines))
    ensures forall k :: k in Reading(f, lines) ==>
              var s := Reading(f, lines)[k];
              1 <= s.lineno <= |lines| && lines[s.lineno - 1] == s.line && s.record == Parse(f, s.line)
  {
    hide Parse, Join, KeyOf;
    if lines != [] {
      ReadingValid(f, Front(lines));
      ParseJoins(f, Last(lines));
      ParseLength(f, Last(lines));
      var s := Slot(Last(lines), Parse(f, Last(lines)), |lines|);
      hide KeyFor, ValidIndex;
      PutKeeps(f, Reading(f, Front(lines)), KeyFor(f, s), s);
      assert Reading(f, lines) == Reading(f, Front(lines))[KeyFor(f, s) := s];
    }
  }

  /** The key under which line `i` is read. */
  function KeyOfLine(f: Format, lines: seq<string>, i: nat): Key
    requires i < |lines|
  {
    KeyFor(f, Slot(lines[i], Parse(f, lines[i]), i + 1))
  }

  /** A key is found exactly when some line has it, and then with the last such line. */
  lemma {:induction false} ReadingLast(f: Format, lines: seq<string>, k: Key)
    ensures k in Reading(f, lines) <==> exists i :: 0 <= i < |lines| && KeyOfLine(f, lines, i) == k
    ensures k in Reading(f, lines) ==>
              var n := Reading(f, lines)[k].lineno;
              1 <= n <= |lines| && KeyOfLine(f, lines, n - 1) == k && forall i :: n <= i < |lines| ==>
                KeyOfLine(f, lines, i) != k
  {
    hide Parse, KeyFor;
    if lines != [] {
      var f0, n := Front(lines), |lines|;
      ReadingLast(f, f0, k);
      forall i | 0 <= i < n - 1 ensures KeyOfLine(f, lines, i) == KeyOfLine(f, f0, i) {}
      assert KeyOfLine(f, lines, n - 1) == KeyFor(f, Slot(Last(lines), Parse(f, Last(lines)), n));
      if i :| 0 <= i < n && KeyOfLine(f, lines, i) == k {
        if i < n - 1 { assert KeyOfLine(f, f0, i) == k; }
      }
      if i :| 0 <= i < |f0| && KeyOfLine(f, f0, i) == k { assert KeyOfLine(f, lines, i) == k; }
    }
  }

  function LinesOf(slots: seq<Slot>): (r: seq<string>)
    ensures |r| == |slots| && forall i :: 0 <= i < |r| ==> r[i] == slots[i].line
  {
    seq(|slots|, i requires 0 <= i < |slots| => slots[i].line)
  }

  // ----------------------------------------------------------------------- edits

  /** The number given to a new line: behind all the others. */
  ghost predicate IsNext(index: map<Key, Slot>, n: nat) {
    if index == map[] then n == 0
    else (exists k :: k in index && n == index[k].lineno + 1) && forall k :: k in index ==> index[k].lineno < n
  }

  lemma RemoveKeepsIndex(f: Format, index: map<Key, Slot>, k: Key)
    requires ValidIndex(f, index)
    ensures ValidIndex(f, index - {k})
  {
    hide KeyFor, Join;
  }

  /** The slots but for one. */
  lemma OtherSlots(slots: seq<Slot>, i: nat, s: Slot)
    requires InOrder(slots) && i < |slots|
    ensures forall t :: t in slots[i := s] <==> t == s || (t in slots && t != slots[i])
    ensures forall t :: t in slots[..i] + slots[i + 1..] <==> t in slots && t != slots[i]
  {
    var put, cut := slots[i := s], slots[..i] + slots[i + 1..];
    assert put[i] == s;
    forall t | t in slots && t != slots[i] ensures t in put && t in cut {
      var m :| 0 <= m < |slots| && slots[m] == t;
      assert put[m] == t;
      assert cut[if m < i then m else m - 1] == t;
    }
    forall m | 0 <= m < |slots| && m != i ensures slots[m] != slots[i] {}
  }

  lemma OtherKeys(f: Format, index: map<Key, Slot>, k: Key, s: Slot)
    requires ValidIndex(f, index) && k in index
    ensures forall t :: Holds(index[k := s], t) <==> t == s || (Holds(index, t) && t != index[k])
    ensures forall t :: Holds(index - {k}, t) <==> Holds(index, t) && t != index[k]
  {
    hide KeyFor, Join;
    var put, cut := index[k := s], index - {k};
    assert put[k] == s;
    forall t | Holds(index, t) && t != index[k] ensures Holds(put, t) && Holds(cut, t) {
      var j :| j in index && index[j] == t;
      assert put[j] == t && cut[j] == t;
    }
    forall t | Holds(put, t) && t != s ensures Holds(index, t) && t != index[k] {
      var j :| j in put && put[j] == t;
      assert index[j] == t;
    }
    forall t | Holds(cut, t) ensures Holds(index, t) && t != index[k] {
      var j :| j in cut && cut[j] == t;
      assert index[j] == t;
    }
  }

  /** An edited record keeps its line: all the others stay where and as they are. */
  lemma EditInPlace(f: Format, index: map<Key, Slot>, slots: seq<Slot>, k: Key, s: Slot) returns (i: nat)
    requires ValidIndex(f, index) && Listed(index, slots) && k in index && s.lineno == index[k].lineno
    ensures i < |slots| && slots[i] == index[k] && Listed(index[k := s], slots[i := s])
  {
    assert Holds(index, index[k]);
    i :| 0 <= i < |slots| && slots[i] == index[k];
    OtherKeys(f, index, k, s);
    OtherSlots(slots, i, s);
    hide ValidIndex, Holds;
    var all := slots[i := s];
    forall m | 0 <= m < |all| ensures all[m].lineno == slots[m].lineno {}
    assert InOrder(all);
    forall t ensures t in all <==> Holds(index[k := s], t) {
      assert t in slots <==> Holds(index, t);
    }
  }

  /** A new record goes behind all the lines there are. */
  lemma AddLast(f: Format, index: map<Key, Slot>, slots: seq<Slot>, k: Key, s: Slot)
    requires ValidIndex(f, index) && Listed(index, slots) && k !in index && IsNext(index, s.lineno)
    ensures Listed(index[k := s], slots + [s])
  {
    hide KeyFor, Join, ValidIndex;
    var all, index' := slots + [s], index[k := s];
    forall m | 0 <= m < |slots| ensures slots[m].lineno < s.lineno { assert slots[m] in slots; }
    assert index'[k] == s;
    forall t | Holds(index, t) ensures Holds(index', t) {
      var j :| j in index && index[j] == t;
      assert index'[j] == t;
    }
    forall t | Holds(index', t) && t != s ensures Holds(index, t) {
      var j :| j in index' && index'[j] == t;
      assert index[j] == t;
    }
  }

  /** A removed record leaves all the others. */
  lemma RemoveOne(f: Format, index: map<Key, Slot>, slots: seq<Slot>, k: Key) returns (i: nat)
    requires ValidIndex(f, index) && Listed(index, slots) && k in index
    ensures i < |slots| && slots[i] == index[k] && Listed(index - {k}, slots[..i] + slots[i + 1..])
  {
    assert Holds(index, index[k]);
    i :| 0 <= i < |slots| && slots[i] == index[k];
    OtherKeys(f, index, k, index[k]);
    OtherSlots(slots, i, index[k]);
    hide ValidIndex, Holds;
    var rest := slots[..i] + slots[i + 1..];
    forall m | 0 <= m < |rest| ensures rest[m] == slots[if m < i then m else m + 1] {}
  }

  // ------------------------------------------------------------- writing and reading

  ghost predicate SameContents(a: seq<Slot>, b: seq<Slot>) {
    |a| == |b| && forall i :: 0 <= i < |a| ==> a[i].line == b[i].line && a[i].record == b[i].record
  }

  /** The slots of a file none of whose lines has the key of another. */
  function Numbered(f: Format, lines: seq<string>): (r: seq<Slot>)
    ensures |r| == |lines| && forall i :: 0 <= i < |r| ==> r[i] == Slot(lines[i], Parse(f, lines[i]), i + 1)
  {
    seq(|lines|, i requires 0 <= i < |lines| => Slot(lines[i], Parse(f, lines[i]), i + 1))
  }

  lemma NumberedListed(f: Format, lines: seq<string>)
    requires forall i, j :: 0 <= i < j < |lines| ==> KeyOfLine(f, lines, i) != KeyOfLine(f, lines, j)
    ensures Listed(Reading(f, lines), Numbered(f, lines))
  {
    hide Parse, KeyFor, Reading;
    var index, slots := Reading(f, lines), Numbered(f, lines);
    ReadingValid(f, lines);
    forall t | t in slots ensures Holds(index, t) {
      var i :| 0 <= i < |slots| && slots[i] == t;
      var k := KeyOfLine(f, lines, i);
      ReadingLast(f, lines, k);
      assert index[k] == t;
    }
    forall t | Holds(index, t) ensures t in slots {
      var k :| k in index && index[k] == t;
      ReadingLast(f, lines, k);
      assert slots[t.lineno - 1] == t;
    }
  }

  /** The keys of different slots differ. */
  lemma KeysDiffer(f: Format, index: map<Key, Slot>, slots: seq<Slot>, i: nat, j: nat)
    requires ValidIndex(f, index) && Listed(index, slots) && i < j < |slots|
    requires Parse(f, slots[i].line) == slots[i].record && Parse(f, slots[j].line) == slots[j].record
    ensures KeyOfLine(f, LinesOf(slots), i) != KeyOfLine(f, LinesOf(slots), j)
  {
    hide Parse, Join;
    assert slots[i] in slots && slots[j] in slots;
    var a :| a in index && index[a] == slots[i];
    var b :| b in index && index[b] == slots[j];
    assert slots[i].lineno < slots[j].lineno;
    assert KeyFor(f, index[a]) == a && KeyFor(f, index[b]) == b && a != b;
  }

  lemma HeldSlot(index: map<Key, Slot>, slots: seq<Slot>, i: nat)
    requires Listed(index, slots) && i < |slots|
    ensures exists k :: k in index && index[k] == slots[i]
  {
    assert slots[i] in slots;
  }

  /** Writing the lines and reading them again gives the same lines and records, in
      the same order, exactly when every line reads as what it is indexed as. */
  lemma RewriteRoundTrip(f: Format, index: map<Key, Slot>, slots: seq<Slot>, slots': seq<Slot>)
    requires ValidIndex(f, index) && Listed(index, slots) && Listed(Reading(f, LinesOf(slots)), slots')
    ensures SameContents(slots, slots') <==> forall s :: s in slots ==> Parse(f, s.line) == s.record
  {
    hide Parse, Reading, ValidIndex, KeyOfLine, Holds;
    var lines := LinesOf(slots);
    if forall s :: s in slots ==> Parse(f, s.line) == s.record {
      forall i, j | 0 <= i < j < |lines| ensures KeyOfLine(f, lines, i) != KeyOfLine(f, lines, j) {
        assert slots[i] in slots && slots[j] in slots;
        KeysDiffer(f, index, slots, i, j);
      }
      NumberedListed(f, lines);
      ListedUnique(slots', Numbered(f, lines));
      forall i | 0 <= i < |slots| ensures slots[i].record == slots'[i].record { assert slots[i] in slots; }
    }
    if SameContents(slots, slots') {
      ReadingValid(f, lines);
      forall s | s in slots ensures Parse(f, s.line) == s.record {
        var i :| 0 <= i < |slots| && slots[i] == s;
        HeldSlot(Reading(f, lines), slots', i);
      }
    }
  }

  /** A record that was set reads as itself exactly when no column contains the
      separator and its line does not look like a comment. */
  lemma RecordReads(f: Format, r: Columns)
    requires ValidFormat(f) && |r| == |f.columns|
    ensures Parse(f, Join(r, f.separator)) == Some(r) <==>
            !IsComment(f, Join(r, f.separator)) && forall i :: 0 <= i < |r| ==> f.separator !in r[i]
  {
    SplitJoin(r, f.separator);
    hide IsComment, Join, Split;
  }

  /** A file's text: every line with a newline behind it. */
  function Text(lines: seq<string>): string {
    Join(lines + [""], '\n')
  }

  /** The lines that reading a text yields, without their newlines. */
  function FileLines(text: string): seq<string> {
    var ps := Split(text, '\n');
    if Last(ps) == "" then Front(ps) else ps
  }

  /** Lines written to a file are read back exactly when none contains a newline. */
  lemma TextRoundTrip(lines: seq<string>)
    ensures FileLines(Text(lines)) == lines <==> forall i :: 0 <= i < |lines| ==> '\n' !in lines[i]
  {
    var ps := lines + [""];
    SplitJoin(ps, '\n');
    SplitPieces(Text(lines), '\n');
    hide Join, Split;
    assert Front(ps) == lines && Last(ps) == "";
    forall i | 0 <= i < |lines| ensures ps[i] == lines[i] {}
    if FileLines(Text(lines)) == lines {
      var qs := Split(Text(lines), '\n');
      forall i | 0 <= i < |lines| ensures '\n' !in lines[i] { assert lines[i] == qs[i]; }
    }
  }

  // ------------------------------------------------------------------- the editor

  datatype EditError =
    | MissingAttribute(field: string)    // RuntimeError
    | NoSuchKey                          // KeyError

  /** The columns of a template, completed by the defaults; None when a column has neither. */
  function Filled(columns: seq<string>, defaults: seq<Option<string>>,
      template: map<string, string>): (r: Option<Columns>)
    requires |columns| == |defaults|
    ensures r.Some? ==> |r.value| == |columns|
  {
    if columns == [] then Some([])
    else
      var r, c := Filled(Front(columns), Front(defaults), template), Last(columns);
      if r.None? || (c !in template && Last(defaults).None?) then None
      else Some(r.value + [if c in template then template[c] else Last(defaults).value])
  }

  /** A column takes its value from the template, or else from the defaults. */
  lemma {:induction false} FilledAt(columns: seq<string>, defaults: seq<Option<string>>, template: map<string, string>)
    requires |columns| == |defaults|
    ensures var r := Filled(columns, defaults, template);
            && (r.Some? <==> forall i :: 0 <= i < |columns| ==> columns[i] in template || defaults[i].Some?)
            && (r.Some? ==> forall i :: 0 <= i < |columns| ==>
                  r.value[i] == if columns[i] in template then template[columns[i]] else defaults[i].value)
  {
    if columns != [] {
      FilledAt(Front(columns), Front(defaults), template);
      var n := |columns| - 1;
      assert forall i :: 0 <= i < n ==> Front(columns)[i] == columns[i] && Front(defaults)[i] == defaults[i];
      assert columns[n] == Last(columns) && defaults[n] == Last(defaults);
    }
  }

  lemma {:induction false} FilledFails(columns: seq<string>, defaults: seq<Option<string>>,
      template: map<string, string>, n: nat)
    requires |columns| == |defaults| && n <= |columns| && Filled(columns[..n], defaults[..n], template).None?
    ensures Filled(columns, defaults, template).None?
  {
    if n < |columns| {
      assert Front(columns)[..n] == columns[..n] && Front(defaults)[..n] == defaults[..n];
      FilledFails(Front(columns), Front(defaults), template, n);
    } else {
      assert columns[..n] == columns && defaults[..n] == defaults;
    }
  }

  lemma PutRecordKeeps(f: Format, index: map<Key, Slot>, k: Key, s: Slot)
    requires ValidIndex(f, index) && s.record.Some? && KeyOf(f, s.record.value) == k
    requires |s.record.value| == |f.columns| && s.line == Join(s.record.value, f.separator)
    requires if k in index then s.lineno == index[k].lineno else IsNext(index, s.lineno)
    ensures ValidIndex(f, index[k := s])
  {
    hide KeyOf, Join;
    PutKeeps(f, index, k, s);
  }

  lemma HoldsMore(done: map<Key, Slot>, k: Key, s: Slot)
    requires k !in done
    ensures forall t :: Holds(done[k := s], t) <==> t == s || Holds(done, t)
  {
    var more := done[k := s];
    assert more[k] == s;
    forall t | Holds(done, t) ensures Holds(more, t) {
      var j :| j in done && done[j] == t;
      assert more[j] == t;
    }
    forall t | Holds(more, t) && t != s ensures Holds(done, t) {
      var j :| j in more && more[j] == t;
      assert done[j] == t;
    }
  }

  lemma Inserted(slots: seq<Slot>, i: nat, s: Slot)
    requires InOrder(slots) && i <= |slots|
    requires forall j :: 0 <= j < |slots| ==> if j < i then slots[j].lineno < s.lineno else s.lineno < slots[j].lineno
    ensures var r := slots[..i] + [s] + slots[i..]; InOrder(r) && forall t :: t in r <==> t in slots || t == s
  {
    var r := slots[..i] + [s] + slots[i..];
    forall x, y | 0 <= x < y < |r| ensures r[x].lineno < r[y].lineno {
      assert x != i ==> r[x] == slots[if x < i then x else x - 1];
      assert y != i ==> r[y] == slots[if y < i then y else y - 1];
    }
    forall t | t in slots ensures t in r {
      var m :| 0 <= m < |slots| && slots[m] == t;
      assert r[if m < i then m else m + 1] == t;
    }
    assert r[i] == s;
  }

  method InsertSlot(slots: seq<Slot>, s: Slot) returns (r: seq<Slot>)
    requires InOrder(slots) && forall t :: t in slots ==> t.lineno != s.lineno
    ensures InOrder(r) && forall t :: t in r <==> t in slots || t == s
  {
    var i := |slots|;
    while i > 0 && s.lineno < slots[i - 1].lineno
      invariant 0 <= i <= |slots|
      invariant forall j :: i <= j < |slots| ==> s.lineno < slots[j].lineno
    {
      i := i - 1;
    }
    forall j | 0 <= j < i ensures slots[j].lineno < s.lineno {
      assert slots[i - 1] in slots;
      assert j < i - 1 ==> slots[j].lineno < slots[i - 1].lineno;
    }
    r := slots[..i] + [s] + slots[i..];
    Inserted(slots, i, s);
  }

  /** The slots of an index, sorted by line number. */
  method SortSlots(f: Format, index: map<Key, Slot>) returns (slots: seq<Slot>)
    requires ValidIndex(f, index)
    ensures Listed(index, slots)
  {
    hide KeyFor, Join;
    slots := [];
    var left := index.Keys;
    ghost var done: map<Key, Slot> := map[];
    while left != {}
      invariant left <= index.Keys && done.Keys == index.Keys - left
      invariant forall k :: k in done ==> done[k] == index[k]
      invariant Listed(done, slots)
      decreases |left|
    {
      var k :| k in left;
      left := left - {k};
      forall s | s in slots ensures s.lineno != index[k].lineno {
        var j :| j in done && done[j] == s;
      }
      slots := InsertSlot(slots, index[k]);
      HoldsMore(done, k, index[k]);
      done := done[k := index[k]];
    }
    assert done == index;
  }

  class CfgFile {
    const format: Format
    const defaults: seq<Option<string>>
    var index: map<Key, Slot>
    var needswriting: bool

    ghost predicate Valid()
      reads this
    {
      ValidFormat(format) && |defaults| == |format.columns| && ValidIndex(format, index)
    }

    /** The file is read line by line. */
    constructor (format: Format, defaults: seq<Option<string>>, lines: seq<string>)
      requires ValidFormat(format) && |defaults| == |format.columns|
      ensures Valid() && this.format == format && this.defaults == defaults && !needswriting
      ensures index == Reading(format, lines)
    {
      this.format, this.defaults := format, defaults;
      index, needswriting := map[], false;
      new;
      hide Parse, KeyFor;
      assert lines[..0] == [];
      for i := 0 to |lines|
        invariant index == Reading(format, lines[..i]) && !needswriting
      {
        assert Front(lines[..i + 1]) == lines[..i] && Last(lines[..i + 1]) == lines[i];
        var s := Slot(lines[i], Parse(format, lines[i]), i + 1);
        index := index[KeyFor(format, s) := s];
      }
      assert lines[..|lines|] == lines;
      ReadingValid(format, lines);
    }

    method GetValue(key: Key) returns (r: Option<Columns>)
      requires Valid() && key.KeyValues?
      ensures r.Some? <==> key in index
      ensures r.Some? ==> r == index[key].record && KeyOf(format, r.value) == key && |r.value| == |format.columns|
    {
      hide KeyOf;
      if key !in index { return None; }
      assert KeyFor(format, index[key]) == key;
      r := index[key].record;
    }

    /** The record replaces the one with its key, on the same line, or becomes the
        last line.  Nothing else in the index changes. */
    method SetValue(template: map<string, string>) returns (r: Result<(), EditError>)
      requires Valid()
      modifies this
      ensures Valid()
      ensures var filled := Filled(format.columns, defaults, template);
              && (r.Ok? <==> filled.Some?)
              && (r.Ok? ==>
                    var k := KeyOf(format, filled.value);
                    k in index && index == old(index)[k := index[k]] && needswriting
                    && index[k].record == filled && index[k].line == Join(filled.value, format.separator)
                    && if k in old(index) then index[k].lineno == old(index)[k].lineno
                       else IsNext(old(index), index[k].lineno))
      ensures r.Err? ==> r.error.MissingAttribute? && r.error.field in format.columns && r.error.field !in template
      ensures r.Err? ==> index == old(index) && needswriting == old(needswriting)
    {
      hide KeyOf, Filled, Join, ValidIndex, IsNext;
      var filled := Fill(template);
      if filled.Err? { return Err(filled.error); }
      var rec := filled.value;
      var key := KeyOf(format, rec);
      var lineno := LineFor(key);
      var s := Slot(Join(rec, format.separator), Some(rec), lineno);
      PutRecordKeeps(format, index, key, s);
      index := index[key := s];
      needswriting := true;
      r := Ok(());
    }

    method Fill(template: map<string, string>) returns (r: Result<Columns, EditError>)
      requires Valid()
      ensures r.Ok? <==> Filled(format.columns, defaults, template).Some?
      ensures r.Ok? ==> Some(r.value) == Filled(format.columns, defaults, template)
      ensures r.Err? ==> r.error.MissingAttribute? && r.error.field in format.columns && r.error.field !in template
    {
      hide ValidIndex;
      var rec := [];
      assert format.columns[..0] == [];
      for i := 0 to |format.columns|
        invariant Filled(format.columns[..i], defaults[..i], template) == Some(rec)
      {
        var cs, ds := format.columns[..i + 1], defaults[..i + 1];
        assert Front(cs) == format.columns[..i] && Last(cs) == format.columns[i] && Front(ds) == defaults[..i]
          && Last(ds) == defaults[i];
        var field := format.columns[i];
        if field !in template && defaults[i].None? {
          FilledFails(format.columns, defaults, template, i + 1);
          return Err(MissingAttribute(field));
        }
        rec := rec + [if field in template then template[field] else defaults[i].value];
      }
      assert format.columns[..|format.columns|] == format.columns && defaults[..|defaults|] == defaults;
      r := Ok(rec);
    }

    method LineFor(key: Key) returns (lineno: nat)
      ensures if key in index then lineno == index[key].lineno else IsNext(index, lineno)
    {
      if key in index { return index[key].lineno; }
      if index == map[] { return 0; }
      var some :| some in index;
      var highest := index[some].lineno;
      var left := index.Keys - {some};
      while left != {}
        invariant left <= index.Keys
        invariant forall k :: k in index && k !in left ==> index[k].lineno <= highest
        invariant exists k :: k in index && index[k].lineno == highest
      {
        var k :| k in left;
        left := left - {k};
        if index[k].lineno > highest { highest := index[k].lineno; }
      }
      lineno := highest + 1;
    }

    method RemoveValue(key: Key) returns (r: Result<(), EditError>)
      requires Valid()
      modifies this
      ensures Valid()
      ensures r == if key in old(index) then Ok(()) else Err(NoSuchKey)
      ensures index == old(index) - {key}
      ensures needswriting == (old(needswriting) || r.Ok?)
    {
      hide ValidIndex;
      RemoveKeepsIndex(format, index, key);
      if key !in index {
        assert index - {key} == index;
        return Err(NoSuchKey);
      }
      index := index - {key};
      needswriting := true;
      r := Ok(());
    }

    /** The lines to be written: all those of the index, by line number. */
    method GetFileLines() returns (lines: seq<string>)
      requires Valid()
      ensures exists slots :: Listed(index, slots) && lines == LinesOf(slots)
    {
      var slots := SortSlots(format, index);
      lines := LinesOf(slots);
    }
  }
}
