/** Membership in groups, kept as comma-joined lists of users
    (src/modules/cfgfiles.py, GroupFile). */
module GroupFiles {
  import opened Common
  import opened Versions
  import opened CfgTexts
  import opened CfgFiles

  // -------------------------------------------------------------- lists of users

  predicate IsSpace(c: char) {
    c == ' ' || 0x9 as char <= c <= 0xd as char || 0x1c as char <= c <= 0x1f as char
  }

  predicate IsBreak(c: char) {
    c == ',' || IsSpace(c)
  }

  /** The text cut at every comma and space. */
  function Cut(s: string): (r: seq<string>)
    ensures r != []
  {
    if s == "" then [""]
    else
      var r := Cut(Front(s));
      if IsBreak(Last(s)) then r + [""] else Front(r) + [Last(r) + [Last(s)]]
  }

  /** `set(s.replace(",", " ").split())` */
  function Words(s: string): set<string> {
    set w | w in Cut(s) && w != ""
  }

  /** The comma and the spaces: tab to carriage return, the four separators and the space. */
  ghost predicate BreakAt(c: char) {
    c as int in {9, 10, 11, 12, 13, 28, 29, 30, 31, 32} || c == ','
  }

  /** From `i` to `j`, a text has a word: it reaches to a comma or a space on both sides. */
  ghost predicate WordAt(s: string, i: int, j: int) {
    && 0 <= i < j <= |s|
    && (forall k :: i <= k < j ==> !BreakAt(s[k]))
    && (i > 0 ==> BreakAt(s[i - 1])) && (j < |s| ==> BreakAt(s[j]))
  }

  /** The last piece is what follows the last break; those before it are the words that end at a break. */
  ghost predicate CutRight(s: string, r: seq<string>) {
    && r != [] && |Last(r)| <= |s| && Last(r) == s[|s| - |Last(r)|..]
    && (forall k :: |s| - |Last(r)| <= k < |s| ==> !BreakAt(s[k]))
    && (|Last(r)| < |s| ==> BreakAt(s[|s| - |Last(r)| - 1]))
    && (forall w :: w in Front(r) && w != "" ==> exists i, j :: WordAt(s, i, j) && j < |s| && s[i..j] == w)
    && (forall i, j :: WordAt(s, i, j) && j < |s| ==> s[i..j] in Front(r))
  }

  lemma WordsBefore(f: string, c: char, i: int, j: int)
    ensures 0 <= i <= j <= |f| ==> (f + [c])[i..j] == f[i..j]
    ensures j < |f| ==> (WordAt(f, i, j) <==> WordAt(f + [c], i, j))
    ensures WordAt(f + [c], i, |f|) <==> WordAt(f, i, |f|) && BreakAt(c)
  {
    hide BreakAt;
    var s := f + [c];
    assert s[|f|] == c && forall k :: 0 <= k < |f| ==> s[k] == f[k];
  }

  lemma CutAtBreak(f: string, c: char, r: seq<string>)
    requires CutRight(f, r) && BreakAt(c)
    ensures CutRight(f + [c], r + [""])
  {
    var n := |f|;
    var start := n - |Last(r)|;
    assert Front(r + [""]) == r == Front(r) + [Last(r)];
    forall i, j | 0 <= i <= j <= n
      ensures (f + [c])[i..j] == f[i..j] && (j < n ==> (WordAt(f, i, j) <==> WordAt(f + [c], i, j)))
    {
      WordsBefore(f, c, i, j);
    }
    WordsBefore(f, c, start, n);
    if Last(r) != "" { assert WordAt(f + [c], start, n) && (f + [c])[start..n] == Last(r); }
    hide BreakAt;
    forall i, j | WordAt(f + [c], i, j) && j < n + 1 ensures (f + [c])[i..j] in r {
      if j == n { assert i == start; } else { assert WordAt(f, i, j); }
    }
  }

  lemma CutElsewhere(f: string, c: char, r: seq<string>)
    requires CutRight(f, r) && !BreakAt(c)
    ensures CutRight(f + [c], Front(r) + [Last(r) + [c]])
  {
    var n, r' := |f|, Front(r) + [Last(r) + [c]];
    assert Front(r') == Front(r) && Last(r') == Last(r) + [c];
    forall i, j | 0 <= i <= j <= n
      ensures (f + [c])[i..j] == f[i..j] && (j < n ==> (WordAt(f, i, j) <==> WordAt(f + [c], i, j)))
    {
      WordsBefore(f, c, i, j);
    }
    hide BreakAt;
  }

  lemma {:induction false} CutIs(s: string)
    ensures CutRight(s, Cut(s))
  {
    if s != "" {
      var f, c := Front(s), Last(s);
      CutIs(f);
      assert s == f + [c] && (IsBreak(c) <==> BreakAt(c));
      hide CutRight, BreakAt, IsBreak;
      if IsBreak(c) { CutAtBreak(f, c, Cut(f)); } else { CutElsewhere(f, c, Cut(f)); }
    }
  }

  /** The names in a list as `adduser` reads it: its words. */
  lemma WordsAre(s: string, w: string)
    ensures w in Words(s) <==> exists i, j :: WordAt(s, i, j) && s[i..j] == w
  {
    CutIs(s);
    var r := Cut(s);
    hide Cut;
    assert r == Front(r) + [Last(r)];
    if w == Last(r) && w != "" { assert WordAt(s, |s| - |w|, |s|); }
    forall i, j | WordAt(s, i, j) && j == |s| ensures s[i..j] == Last(r) {}
  }

  predicate Clean(u: string) {
    forall i :: 0 <= i < |u| ==> !IsBreak(u[i])
  }

  predicate ValidName(u: string) {
    u != "" && Clean(u)
  }

  /** The names in a list as `getgroups` reads it: cut at commas alone. */
  predicate InList(u: string, list: string) {
    u in Split(list, ',')
  }

  lemma {:induction false} CutClean(s: string)
    ensures forall i :: 0 <= i < |Cut(s)| ==> Clean(Cut(s)[i])
  {
    if s != "" { CutClean(Front(s)); }
  }

  /** The words of a list are valid names. */
  lemma WordsValid(s: string)
    ensures forall w :: w in Words(s) ==> ValidName(w)
  {
    CutClean(s);
    forall w | w in Words(s) ensures ValidName(w) {
      var i :| 0 <= i < |Cut(s)| && Cut(s)[i] == w;
    }
  }

  /** Pieces between commas that contain no break are pieces between breaks. */
  ghost predicate Refined(a: seq<string>, b: seq<string>) {
    && a != [] && b != [] && (Clean(Last(a)) ==> Last(b) == Last(a))
    && forall i :: 0 <= i < |a| - 1 && Clean(a[i]) ==> a[i] in Front(b)
  }

  lemma RefinedStep(a: seq<string>, b: seq<string>, c: char)
    requires Refined(a, b)
    ensures Refined(if c == ',' then a + [""] else Front(a) + [Last(a) + [c]],
                    if IsBreak(c) then b + [""] else Front(b) + [Last(b) + [c]])
  {
    var a' := if c == ',' then a + [""] else Front(a) + [Last(a) + [c]];
    var b' := if IsBreak(c) then b + [""] else Front(b) + [Last(b) + [c]];
    if IsBreak(c) { assert Front(b') == b; }
    if c != ',' {
      var x := Last(a) + [c];
      assert x[|Last(a)|] == c;
      if Clean(x) { assert forall i :: 0 <= i < |Last(a)| ==> Last(a)[i] == x[i]; }
      forall i | 0 <= i < |a'| - 1 && Clean(a'[i]) ensures a'[i] in Front(b') { assert a'[i] == a[i]; }
    } else {
      forall i | 0 <= i < |a'| - 1 && Clean(a'[i]) ensures a'[i] in Front(b') {
        assert a'[i] == a[i];
        if i == |a| - 1 { assert b[|b| - 1] == a[i]; }
      }
    }
  }

  lemma {:induction false} CutRefines(s: string)
    ensures Refined(Split(s, ','), Cut(s))
  {
    if s != "" {
      CutRefines(Front(s));
      RefinedStep(Split(Front(s), ','), Cut(Front(s)), Last(s));
    }
  }

  /** A valid name that stands between commas is a word. */
  lemma ListedIsWord(u: string, list: string)
    requires ValidName(u) && InList(u, list)
    ensures u in Words(list)
  {
    CutRefines(list);
    var a, b := Split(list, ','), Cut(list);
    var i :| 0 <= i < |a| && a[i] == u;
    if i == |a| - 1 { assert b[|b| - 1] == u; } else { assert u in Front(b); }
  }

  lemma {:induction false} CutAtCommas(s: string)
    requires forall i :: 0 <= i < |s| ==> !IsSpace(s[i])
    ensures Cut(s) == Split(s, ',')
  {
    if s != "" {
      assert !IsSpace(s[|s| - 1]);
      CutAtCommas(Front(s));
    }
  }

  /** `list` is what joining the names, in some order, gives. */
  ghost predicate IsListOf(list: string, names: set<string>) {
    exists ns: seq<string> :: (set n | n in ns) == names && list == Join(ns, ',')
  }

  lemma {:induction false} JoinNoSpace(ns: seq<string>)
    requires forall i :: 0 <= i < |ns| ==> Clean(ns[i])
    ensures forall i :: 0 <= i < |Join(ns, ',')| ==> !IsSpace(Join(ns, ',')[i])
  {
    if |ns| > 1 { JoinNoSpace(Front(ns)); }
  }

  lemma NoCommas(ns: seq<string>)
    requires forall i :: 0 <= i < |ns| ==> Clean(ns[i])
    ensures forall i :: 0 <= i < |ns| ==> ',' !in ns[i]
  {
  }

  lemma JoinNone()
    ensures Join([], ',') == "" && Split("", ',') == [""]
  {
  }

  /** In a list that was joined from valid names, the two ways of reading it agree. */
  lemma JoinedList(list: string, names: set<string>)
    requires IsListOf(list, names) && forall n :: n in names ==> ValidName(n)
    ensures Words(list) == names
    ensures forall u :: ValidName(u) ==> (InList(u, list) <==> u in names)
  {
    var ns: seq<string> :| (set n | n in ns) == names && list == Join(ns, ',');
    forall i | 0 <= i < |ns| ensures ValidName(ns[i]) { assert ns[i] in names; }
    JoinNoSpace(ns);
    CutAtCommas(list);
    hide Cut, Split, Join, Clean;
    if ns != [] {
      assert forall i :: 0 <= i < |ns| ==> ',' !in ns[i] by { NoCommas(ns); }
      SplitJoin(ns, ',');
    } else {
      JoinNone();
    }
  }

  // ------------------------------------------------------------------ the file

  const GROUPS: Format := Format(':', ["groupname", "password", "gid", "user-list"], [0], {'+', '-'})

  const GROUP_DEFAULTS: seq<Option<string>> := [None, Some(""), None, Some("")]

  function GroupKey(g: string): Key {
    KeyValues([g])
  }

  /** The columns of a group; None for a group that is not in the file. */
  function RecordOf(index: map<Key, Slot>, g: string): (r: Option<Columns>)
    ensures r.Some? ==> |r.value| == 4
  {
    if GroupKey(g) in index && index[GroupKey(g)].record.Some? && |index[GroupKey(g)].record.value| == 4
    then index[GroupKey(g)].record else None
  }

  /** The user list of a group. */
  function ListOf(index: map<Key, Slot>, g: string): Option<string> {
    if RecordOf(index, g).Some? then Some(RecordOf(index, g).value[3]) else None
  }

  /** The users of a group as `adduser` and `subuser` read them. */
  function Users(index: map<Key, Slot>, g: string): set<string> {
    if ListOf(index, g).Some? then Words(ListOf(index, g).value) else {}
  }

  /** Whether `getgroups` counts `u` as a member of `g`. */
  predicate IsMember(index: map<Key, Slot>, g: string, u: string) {
    ListOf(index, g).Some? && InList(u, ListOf(index, g).value)
  }

  /** The list of `g` now has the names given, and its other columns are what they
      were; a new group has no password, and its number from the image. */
  ghost predicate Rewritten(before: map<Key, Slot>, after: map<Key, Slot>, g: string, names: set<string>,
      gids: map<string, string>)
  {
    && RecordOf(after, g).Some?
    && var r, was := RecordOf(after, g).value, RecordOf(before, g);
       && IsListOf(r[3], names) && r[0] == g
       && r[1] == (if was.Some? then was.value[1] else "")
       && r[2] == (if was.Some? then was.value[2] else if g in gids then gids[g] else "")
  }

  /** Only `g` was rewritten, on its line or on a new one at the end. */
  ghost predicate Relisted(before: map<Key, Slot>, after: map<Key, Slot>, g: string, names: set<string>,
      gids: map<string, string>)
  {
    && Rewritten(before, after, g, names, gids)
    && after == before[GroupKey(g) := after[GroupKey(g)]]
    && var s := after[GroupKey(g)];
       && s.line == Join(RecordOf(after, g).value, ':')
       && if GroupKey(g) in before then s.lineno == before[GroupKey(g)].lineno else IsNext(before, s.lineno)
  }

  /** The names in a list, joined in whatever order the set is visited. */
  method JoinNames(names: set<string>) returns (list: string)
    ensures IsListOf(list, names)
  {
    hide Join;
    var ns: seq<string> := [];
    var left := names;
    while left != {}
      invariant left <= names && forall n :: n in ns <==> n in names && n !in left
    {
      var n :| n in left;
      left := left - {n};
      ns := ns + [n];
    }
    list := Join(ns, ',');
    assert (set n | n in ns) == names;
  }

  lemma JoinFour(cols: seq<string>, c: char)
    requires |cols| == 4
    ensures Join(cols, c) == cols[0] + [c] + cols[1] + [c] + cols[2] + [c] + cols[3]
  {
    var three, two := cols[..3], cols[..2];
    assert Front(cols) == three && Front(three) == two && Front(two) == [cols[0]];
    assert Join(two, c) == cols[0] + [c] + cols[1];
    assert Join(three, c) == Join(two, c) + [c] + cols[2];
  }

  lemma KeyOfGroup(r: Columns)
    requires |r| == 4
    ensures KeyOf(GROUPS, r) == GroupKey(r[0])
  {
    assert KeyOf(GROUPS, r).values == [r[0]];
  }

  /** A line is the record of a group when it has four columns divided by colons, the
      first of them the group's name, and does not begin with a plus or a minus sign. */
  lemma GroupLine(line: string, g: string, cols: Columns)
    requires |cols| == 4
    ensures RecordOf(Reading(GROUPS, [line]), g) == Some(cols) <==>
            && line == cols[0] + ":" + cols[1] + ":" + cols[2] + ":" + cols[3] && g == cols[0]
            && (forall i :: 0 <= i < 4 ==> ':' !in cols[i]) && line[0] != '+' && line[0] != '-'
  {
    SplitJoin(cols, ':');
    JoinSplit(line, ':');
    JoinFour(cols, ':');
    hide Split, Join;
    var s := Slot(line, Parse(GROUPS, line), 1);
    assert Front([line]) == [] && Reading(GROUPS, [line]) == map[KeyFor(GROUPS, s) := s];
    if s.record.Some? { KeyOfGroup(s.record.value); }
  }

  /** A template that has all the columns but the password becomes the record. */
  lemma FilledGroup(t: map<string, string>)
    requires "groupname" in t && "gid" in t && "user-list" in t
    ensures Filled(GROUPS.columns, GROUP_DEFAULTS, t).Some?
    ensures var r := Filled(GROUPS.columns, GROUP_DEFAULTS, t).value;
            |r| == 4 && r[0] == t["groupname"] && r[2] == t["gid"] && r[3] == t["user-list"]
            && r[1] == if "password" in t then t["password"] else ""
  {
    FilledAt(GROUPS.columns, GROUP_DEFAULTS, t);
    hide Filled;
    var cs, ds := GROUPS.columns, GROUP_DEFAULTS;
    assert cs[0] == "groupname" && cs[1] == "password" && cs[2] == "gid" && cs[3] == "user-list";
    assert ds[1] == ds[3] == Some("");
    forall i | 0 <= i < |cs| ensures cs[i] in t || ds[i].Some? {}
  }

  datatype GroupError =
    | NoSuchGroup(groupname: string)
    | NotInGroup(username: string, groupname: string)

  /** The columns of a group's record as a template, with another list of users. */
  function Template(r: Columns, list: string): map<string, string>
    requires |r| == 4
  {
    map["groupname" := r[0], "password" := r[1], "gid" := r[2], "user-list" := list]
  }

  ghost predicate Ascending(names: seq<string>) {
    forall i, j :: 0 <= i < j < |names| ==> LexLess(Codes(names[i]), Codes(names[j]))
  }

  lemma Unvisited(names: seq<string>, i: nat)
    requires Ascending(names) && i < |names|
    ensures names[i] !in names[..i] && names[i] in names
  {
    LexIrreflexive(Codes(names[i]));
  }

  /** Some groups have lost the user, others have gained them. */
  ghost predicate Between(before: map<Key, Slot>, after: map<Key, Slot>, u: string,
                          removed: set<string>, added: set<string>, gids: map<string, string>) {
    forall g :: if g in removed then Rewritten(before, after, g, Users(before, g) - {u}, gids)
                else if g in added then Rewritten(before, after, g, Users(before, g) + {u}, gids)
                else RecordOf(after, g) == RecordOf(before, g)
  }

  /** What `setgroups` makes of the records of all groups. */
  ghost predicate Regrouped(before: map<Key, Slot>, after: map<Key, Slot>, u: string, groups: set<string>,
      gids: map<string, string>)
  {
    forall g :: if IsMember(before, g, u) && g !in groups then Rewritten(before, after, g, Users(before, g) - {u}, gids)
                else if !IsMember(before, g, u) && g in groups
                  then Rewritten(before, after, g, Users(before, g) + {u}, gids)
                else RecordOf(after, g) == RecordOf(before, g)
  }

  lemma RelistedBetween(before: map<Key, Slot>, now: map<Key, Slot>, after: map<Key, Slot>, u: string,
                        removed: set<string>, added: set<string>, g: string, gids: map<string, string>)
    requires Between(before, now, u, removed, added, gids) && g !in removed && g !in added
    ensures Relisted(now, after, g, Users(now, g) - {u}, gids) ==> Between(before, after, u, removed + {g}, added, gids)
    ensures Relisted(now, after, g, Users(now, g) + {u}, gids) ==> Between(before, after, u, removed, added + {g}, gids)
  {
    hide Words, IsListOf, Join, IsNext;
    forall h | h != g && exists names :: Relisted(now, after, g, names, gids)
      ensures RecordOf(after, h) == RecordOf(now, h)
    {
      assert GroupKey(h).values[0] != GroupKey(g).values[0];
    }
  }

  lemma GroupOfKey(index: map<Key, Slot>, k: Key)
    requires ValidIndex(GROUPS, index) && k in index
    ensures index[k].record.Some? ==>
              |index[k].record.value| == 4 && k == GroupKey(index[k].record.value[0])
              && ListOf(index, index[k].record.value[0]) == Some(index[k].record.value[3])
    ensures index[k].record.None? ==> forall g :: GroupKey(g) != k
  {
    if index[k].record.Some? { KeyOfGroup(index[k].record.value); }
    hide Join;
    assert KeyFor(GROUPS, index[k]) == k;
  }

  lemma TextTotal(s: string, t: string)
    ensures s == t || LexLess(Codes(s), Codes(t)) || LexLess(Codes(t), Codes(s))
  {
    LexTotal(Codes(s), Codes(t));
    if Codes(s) == Codes(t) { CodesInjective(s, t); }
  }

  lemma InsertedText(names: seq<string>, i: nat, s: string)
    requires Ascending(names) && i <= |names|
    requires forall j :: 0 <= j < |names| ==>
             if j < i then LexLess(Codes(names[j]), Codes(s)) else LexLess(Codes(s), Codes(names[j]))
    ensures var r := names[..i] + [s] + names[i..]; Ascending(r) && forall n :: n in r <==> n in names || n == s
  {
    hide LexLess;
    var r := names[..i] + [s] + names[i..];
    forall x, y | 0 <= x < y < |r| ensures LexLess(Codes(r[x]), Codes(r[y])) {
      assert x != i ==> r[x] == names[if x < i then x else x - 1];
      assert y != i ==> r[y] == names[if y < i then y else y - 1];
    }
    forall n | n in names ensures n in r {
      var m :| 0 <= m < |names| && names[m] == n;
      assert r[if m < i then m else m + 1] == n;
    }
    assert r[i] == s;
  }

  method InsertText(names: seq<string>, s: string) returns (r: seq<string>)
    requires Ascending(names) && s !in names
    ensures Ascending(r) && forall n :: n in r <==> n in names || n == s
  {
    hide LexLess;
    var i := |names|;
    while i > 0 && LexLess(Codes(s), Codes(names[i - 1]))
      invariant 0 <= i <= |names|
      invariant forall j :: i <= j < |names| ==> LexLess(Codes(s), Codes(names[j]))
    {
      i := i - 1;
    }
    forall j | 0 <= j < i ensures LexLess(Codes(names[j]), Codes(s)) {
      TextTotal(names[i - 1], s);
      assert names[i - 1] in names;
      if j < i - 1 { LexTransitive(Codes(names[j]), Codes(names[i - 1]), Codes(s)); }
    }
    r := names[..i] + [s] + names[i..];
    InsertedText(names, i, s);
  }

  lemma EmptyWords()
    ensures Words("") == {}
  {
  }

  /** A record found under a group's key is of that group, and has its list. */
  lemma GroupRecord(index: map<Key, Slot>, g: string, r: Option<Columns>)
    requires r.Some? <==> GroupKey(g) in index
    requires r.Some? ==>
             r == index[GroupKey(g)].record && KeyOf(GROUPS, r.value) == GroupKey(g)
             && |r.value| == |GROUPS.columns|
    ensures r == RecordOf(index, g) && (r.Some? ==> r.value[0] == g)
  {
    if r.Some? {
      KeyOfGroup(r.value);
      assert GroupKey(g).values[0] == GroupKey(r.value[0]).values[0];
    }
  }

  class GroupFile {
    const file: CfgFile
    const gids: map<string, string>    // the groups that come with the same image

    ghost predicate Valid()
      reads this, file
    {
      file.Valid() && file.format == GROUPS && file.defaults == GROUP_DEFAULTS
    }

    constructor (lines: seq<string>, gids: map<string, string>)
      ensures Valid() && this.gids == gids && fresh(file) && file.index == Reading(GROUPS, lines)
    {
      this.gids := gids;
      file := new CfgFile(GROUPS, GROUP_DEFAULTS, lines);
    }

    /** The group's list becomes `list`; its other columns stay; a new group gets its number from the image. */
    method SetList(was: Option<Columns>, groupname: string, list: string, ghost names: set<string>)
      requires Valid() && was == RecordOf(file.index, groupname) && (was.Some? ==> was.value[0] == groupname)
      requires IsListOf(list, names)
      modifies file
      ensures Valid() && Relisted(old(file.index), file.index, groupname, names, gids)
    {
      hide Filled, KeyOf, ValidIndex, Join, IsNext, IsListOf;
      var t := if was.Some? then Template(was.value, list)
               else map["groupname" := groupname, "gid" := if groupname in gids then gids[groupname] else "",
                        "user-list" := list];
      FilledGroup(t);
      KeyOfGroup(Filled(GROUPS.columns, GROUP_DEFAULTS, t).value);
      var r := file.SetValue(t);
    }

    method AddUser(groupname: string, username: string)
      requires Valid()
      modifies file
      ensures Valid()
      ensures Relisted(old(file.index), file.index, groupname, Users(old(file.index), groupname) + {username}, gids)
    {
      hide Words, ValidIndex, KeyOf, IsListOf;
      var group := file.GetValue(GroupKey(groupname));
      GroupRecord(file.index, groupname, group);
      var users := if group.Some? then Words(group.value[3]) else Words("");
      EmptyWords();
      var list := JoinNames(users + {username});
      SetList(group, groupname, list, users + {username});
    }

    method SubUser(groupname: string, username: string) returns (r: Result<(), GroupError>)
      requires Valid()
      modifies file
      ensures Valid()
      ensures r == if ListOf(old(file.index), groupname).None? then Err(NoSuchGroup(groupname))
                   else if username !in Users(old(file.index), groupname) then Err(NotInGroup(username, groupname))
                   else Ok(())
      ensures r.Err? ==> file.index == old(file.index)
      ensures r.Ok? ==> Relisted(old(file.index), file.index, groupname, Users(old(file.index), groupname) - {username},
              gids)
    {
      hide Words, ValidIndex, KeyOf, IsListOf;
      var group := file.GetValue(GroupKey(groupname));
      GroupRecord(file.index, groupname, group);
      if group.None? { return Err(NoSuchGroup(groupname)); }
      var users := Words(group.value[3]);
      if username !in users { return Err(NotInGroup(username, groupname)); }
      var list := JoinNames(users - {username});
      SetList(group, groupname, list, users - {username});
      r := Ok(());
    }

    /** The groups whose lists have the user, sorted. */
    method GetGroups(username: string) returns (groups: seq<string>)
      requires Valid()
      ensures Ascending(groups) && forall g :: g in groups <==> IsMember(file.index, g, username)
    {
      hide KeyOf, Join, InList;
      groups := [];
      var left := file.index.Keys;
      while left != {}
        invariant left <= file.index.Keys && Ascending(groups)
        invariant forall g :: g in groups <==> IsMember(file.index, g, username) && GroupKey(g) !in left
      {
        var k :| k in left;
        left := left - {k};
        GroupOfKey(file.index, k);
        var record := file.index[k].record;
        if record.Some? && InList(username, record.value[3]) {
          assert GroupKey(record.value[0]) == k;
          groups := InsertText(groups, record.value[0]);
        }
      }
    }

    /** The user leaves the groups not named and joins the others named; the sets
        are visited in any order.  For a valid name nothing is raised. */
    method SetGroups(username: string, groups: set<string>) returns (r: Result<(), GroupError>)
      requires Valid()
      modifies file
      ensures Valid()
      ensures ValidName(username) ==> r.Ok?
      ensures r.Ok? ==> Regrouped(old(file.index), file.index, username, groups, gids)
    {
      hide ValidName, IsListOf, InList, ValidIndex, Words;
      var list := GetGroups(username);
      var current := set g | g in list;
      ghost var before := file.index;
      var removals, additions := current - groups, groups - current;
      ghost var removed: set<string> := {};
      while removals != {}
        invariant Valid() && Between(before, file.index, username, removed, {}, gids)
        invariant removals !! removed && removals + removed == current - groups
      {
        var g :| g in removals;
        removals := removals - {g};
        if ValidName(username) { ListedIsWord(username, ListOf(before, g).value); }
        ghost var now := file.index;
        var done := SubUser(g, username);
        if done.Err? { return done; }
        RelistedBetween(before, now, file.index, username, removed, {}, g, gids);
        removed := removed + {g};
      }
      ghost var added: set<string> := {};
      while additions != {}
        invariant Valid() && Between(before, file.index, username, removed, added, gids)
        invariant additions !! added && additions + added == groups - current
      {
        var g :| g in additions;
        additions := additions - {g};
        ghost var now := file.index;
        AddUser(g, username);
        RelistedBetween(before, now, file.index, username, removed, added, g, gids);
        added := added + {g};
      }
      r := Ok(());
    }

    method RemoveUser(username: string) returns (r: Result<(), GroupError>)
      requires Valid()
      modifies file
      ensures Valid()
      ensures ValidName(username) ==> r.Ok? && Regrouped(old(file.index), file.index, username, {}, gids)
    {
      hide ValidName, IsListOf, InList, ValidIndex, Words;
      var groups := GetGroups(username);
      ghost var before := file.index;
      ghost var removed: set<string> := {};
      for i := 0 to |groups|
        invariant Valid() && Between(before, file.index, username, removed, {}, gids)
        invariant forall g :: g in removed <==> g in groups[..i]
      {
        var g := groups[i];
        assert g in groups;
        if ValidName(username) { ListedIsWord(username, ListOf(before, g).value); }
        Unvisited(groups, i);
        ghost var now := file.index;
        var done := SubUser(g, username);
        if done.Err? { return done; }
        RelistedBetween(before, now, file.index, username, removed, {}, g, gids);
        removed := removed + {g};
      }
      assert groups[..|groups|] == groups;
      r := Ok(());
    }
  }

  // --------------------------------------------------------------- what it comes to

  lemma UsersValid(index: map<Key, Slot>, g: string)
    ensures forall v :: v in Users(index, g) ==> ValidName(v)
  {
    if ListOf(index, g).Some? { WordsValid(ListOf(index, g).value); }
  }

  /** Afterwards the user is in exactly the groups asked for. */
  lemma SetGroupsExact(before: map<Key, Slot>, after: map<Key, Slot>, u: string, groups: set<string>,
      gids: map<string, string>, g: string)
    requires Regrouped(before, after, u, groups, gids) && ValidName(u)
    ensures IsMember(after, g, u) <==> g in groups
  {
    UsersValid(before, g);
    hide Words, IsListOf, InList, ValidName;
    if IsMember(before, g, u) && g !in groups {
      JoinedList(ListOf(after, g).value, Users(before, g) - {u});
    } else if !IsMember(before, g, u) && g in groups {
      JoinedList(ListOf(after, g).value, Users(before, g) + {u});
    }
  }

  /** In a list that was rewritten, another user is a member exactly when they were a
      word of the old one; in the other lists nothing changes. */
  lemma OtherMember(before: map<Key, Slot>, after: map<Key, Slot>, u: string, groups: set<string>,
      gids: map<string, string>, g: string, v: string)
    requires Regrouped(before, after, u, groups, gids) && ValidName(u) && ValidName(v) && v != u
    ensures IsMember(after, g, v) <==>
            if IsMember(before, g, u) == (g in groups) then IsMember(before, g, v) else v in Users(before, g)
  {
    UsersValid(before, g);
    hide Words, IsListOf, InList, ValidName;
    if IsMember(before, g, u) && g !in groups {
      JoinedList(ListOf(after, g).value, Users(before, g) - {u});
    } else if !IsMember(before, g, u) && g in groups {
      JoinedList(ListOf(after, g).value, Users(before, g) + {u});
    }
  }

  /** A list in which every word stands between commas. */
  ghost predicate Normalised(list: string, but: string) {
    forall v :: v in Words(list) && v != but ==> InList(v, list)
  }

  /** The members of a group other than the user stay the same exactly when the
      group's list is not rewritten, or names them between commas. */
  lemma OthersUnchanged(before: map<Key, Slot>, after: map<Key, Slot>, u: string, groups: set<string>,
      gids: map<string, string>, g: string)
    requires Regrouped(before, after, u, groups, gids) && ValidName(u)
    ensures (forall v :: ValidName(v) && v != u ==> (IsMember(after, g, v) <==> IsMember(before, g, v))) <==>
            (IsMember(before, g, u) == (g in groups) || ListOf(before, g).None?
              || Normalised(ListOf(before, g).value, u))
  {
    UsersValid(before, g);
    hide Words, IsListOf, ValidName, Regrouped, InList;
    forall v | ValidName(v) && v != u
      ensures IsMember(after, g, v) <==>
              if IsMember(before, g, u) == (g in groups) then IsMember(before, g, v) else v in Users(before, g)
      ensures IsMember(before, g, v) ==> v in Users(before, g)
    {
      OtherMember(before, after, u, groups, gids, g, v);
      if IsMember(before, g, v) { ListedIsWord(v, ListOf(before, g).value); }
    }
    if IsMember(before, g, u) != (g in groups) && ListOf(before, g).Some? {
      var list := ListOf(before, g).value;
      if forall v :: ValidName(v) && v != u ==> (IsMember(after, g, v) <==> IsMember(before, g, v)) {
        forall v | v in Words(list) && v != u ensures InList(v, list) {
          assert v in Users(before, g) && ValidName(v);
          assert IsMember(before, g, v);
        }
      }
      if Normalised(list, u) {
        forall v | ValidName(v) && v != u ensures IsMember(after, g, v) <==> IsMember(before, g, v) {
          assert v in Users(before, g) ==> InList(v, list);
        }
      }
    }
  }

  lemma WordsWithSpace()
    ensures "a" in Words("a b") && Split("a b", ',') == ["a b"]
    ensures ValidName("a") && !ValidName("a b")
  {
    hide Words, Split;
    var s := "a b";
    assert WordAt(s, 0, 1) && s[0..1] == "a";
    WordsAre(s, "a");
    assert IsBreak(s[1]);
    SplitWhole(s, ',');
  }

  /** A list with a space in it: adding another user to the group makes a member of "a", who was none. */
  lemma SpaceMakesMember(before: map<Key, Slot>, after: map<Key, Slot>, u: string, groups: set<string>,
      gids: map<string, string>, g: string)
    requires Regrouped(before, after, u, groups, gids) && ValidName(u) && u != "a"
    requires ListOf(before, g) == Some("a b") && g in groups
    ensures !IsMember(before, g, "a") && IsMember(after, g, "a")
  {
    hide Regrouped, Words, Split, ValidName, RecordOf;
    WordsWithSpace();
    OtherMember(before, after, u, groups, gids, g, "a");
  }
}
