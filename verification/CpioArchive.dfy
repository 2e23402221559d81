/** Archives as they are written, and what is found in them again
    (src/modules/cpiofile.py, CpioInfo.frombuf and CpioFile.__next__). */
module CpioArchives {
  import opened Common
  import opened Octets
  import opened Streams
  import opened CpioHeaders
  import opened CpioFiles

  /** The bytes of a text. */
  function Ascii(s: string): (r: Bytes)
    requires forall c :: c in s ==> c < 128 as char
    ensures |r| == |s|
  {
    seq(|s|, i requires 0 <= i < |s| => assert s[i] in s; s[i] as int as byte)
  }

  /** A member of an archive as it is written: its header fields, its name and its data. */
  datatype Member =
    | HexMember(fields: seq<nat>, name: Bytes, body: Bytes)               // the thirteen fields of the format
    | BinMember(halves: seq<nat>, mtime: int, name: Bytes, body: Bytes)   // the seven that precede the time

  ghost predicate ValidMember(m: Member) {
    match m
    case HexMember(fields, name, body) =>
      && |fields| == 13 && (forall k :: 0 <= k < 13 ==> fields[k] < 0x1_0000_0000)
      && fields[6] == |body| && fields[11] == |name| + 1
    case BinMember(halves, mtime, name, body) =>
      && |halves| == 7 && (forall k :: 0 <= k < 7 ==> halves[k] < 0x1_0000)
      && -0x8000_0000 <= mtime < 0x8000_0000 && |name| + 1 < 0x8000 && |body| < 0x8000_0000
  }

  /** The blocks to which headers and data are padded. */
  function Unit(m: Member): nat {
    if m.HexMember? then 4 else 2
  }

  ghost function ModeOf(m: Member): nat
    requires ValidMember(m)
  {
    if m.HexMember? then m.fields[1] else m.halves[2]
  }

  ghost function TimeOf(m: Member): int
    requires ValidMember(m)
  {
    if m.HexMember? then m.fields[5] else m.mtime
  }

  function HexFields(fs: seq<nat>): (r: Bytes)
    ensures |r| == 8 * |fs|
  {
    if fs == [] then [] else HexFields(Front(fs)) + Hex(Last(fs), 8)
  }

  /** Words of 16 bits, the lower byte first. */
  function Words(ws: seq<nat>): (r: Bytes)
    requires forall k :: 0 <= k < |ws| ==> ws[k] < 0x1_0000
    ensures |r| == 2 * |ws|
  {
    seq(2 * |ws|, i requires 0 <= i < 2 * |ws| =>
      if i % 2 == 0 then (ws[i / 2] % 256) as byte else (ws[i / 2] / 256) as byte)
  }

  /** A number of 32 bits as two words, the lower one first. */
  function Halved(n: int): seq<nat> {
    [n % 0x1_0000, n / 0x1_0000 % 0x1_0000]
  }

  function Zeros(n: nat): (r: Bytes)
    ensures |r| == n
  {
    seq(n, _ => 0)
  }

  /** Magic number and fields. */
  function Start(m: Member): (r: Bytes)
    requires ValidMember(m)
    ensures |r| == if m.HexMember? then 110 else 26
  {
    match m
    case HexMember(fields, _, _) => Ascii("070701") + HexFields(fields)
    case BinMember(halves, mtime, name, body) =>
      Words([0x71c7] + halves + Halved(mtime) + [|name| + 1] + Halved(|body|))
  }

  /** The start, and the name with its NUL, padded. */
  function Header(m: Member): Bytes
    requires ValidMember(m)
  {
    var start := Start(m) + m.name + [0];
    start + Zeros(AlignUp(|start|, Unit(m)) - |start|)
  }

  function Entry(m: Member): Bytes
    requires ValidMember(m)
  {
    Header(m) + m.body + Zeros(AlignUp(|m.body|, Unit(m)) - |m.body|)
  }

  lemma EntrySize(m: Member)
    requires ValidMember(m)
    ensures |Header(m)| == AlignUp(|Start(m)| + |m.name| + 1, Unit(m))
    ensures |Entry(m)| == |Header(m)| + AlignUp(|m.body|, Unit(m))
  {
    hide AlignUp, Start, ValidMember;
  }

  ghost function Entries(ms: seq<Member>): Bytes
    requires forall m :: m in ms ==> ValidMember(m)
  {
    if ms == [] then []
    else
      assert ms[0] in ms;
      Entry(ms[0]) + Entries(ms[1..])
  }

  // ------------------------------------------------------------------- reading back

  lemma WindowShift(pre: Bytes, s: Bytes, lo: nat, hi: nat)
    ensures Window(pre + s, |pre| + lo, |pre| + hi) == Window(s, lo, hi)
  {
  }

  lemma WindowPrefix(s: Bytes, post: Bytes, lo: nat, hi: nat)
    requires lo <= hi <= |s|
    ensures Window(s + post, lo, hi) == s[lo..hi]
  {
  }

  lemma {:induction false} FieldAt(fs: seq<nat>, k: nat)
    requires k < |fs|
    ensures HexFields(fs)[8 * k..8 * k + 8] == Hex(fs[k], 8)
  {
    if k < |fs| - 1 {
      FieldAt(Front(fs), k);
      assert HexFields(fs)[8 * k..8 * k + 8] == HexFields(Front(fs))[8 * k..8 * k + 8];
    } else {
      assert HexFields(fs)[8 * k..8 * k + 8] == Hex(Last(fs), 8);
    }
  }

  lemma MagicTexts()
    ensures Ascii("070701") == CMS_ASC && Ascii("TRAILER!!!") == TRAILER
  {
  }

  lemma BehindMagic(h: Bytes, lo: nat, hi: nat)
    requires lo <= hi <= |h|
    ensures Window(CMS_ASC + h, 6 + lo, 6 + hi) == h[lo..hi]
  {
    assert (CMS_ASC + h)[6 + lo..6 + hi] == h[lo..hi];
  }

  /** Every field is read as it was written. */
  lemma FieldParses(fs: seq<nat>, k: nat)
    requires |fs| == 13 && k < 13 && fs[k] < 0x1_0000_0000
    ensures ParseHex(Window(CMS_ASC + HexFields(fs), 6 + 8 * k, 14 + 8 * k)) == Some(fs[k])
  {
    FieldAt(fs, k);
    EightDigits();
    ParseHexOf(fs[k], 8);
    BehindMagic(HexFields(fs), 8 * k, 8 * k + 8);
  }

  lemma AscFields(buf: Bytes, mode: nat, uid: nat, gid: nat, mtime: nat, size: nat, major: nat, minor: nat,
      namesize: nat, chksum: nat)
    requires ParseHex(Window(buf, 14, 22)) == Some(mode) && ParseHex(Window(buf, 22, 30)) == Some(uid)
    requires ParseHex(Window(buf, 30, 38)) == Some(gid) && ParseHex(Window(buf, 46, 54)) == Some(mtime)
    requires ParseHex(Window(buf, 54, 62)) == Some(size) && ParseHex(Window(buf, 62, 70)) == Some(major)
    requires ParseHex(Window(buf, 70, 78)) == Some(minor) && ParseHex(Window(buf, 94, 102)) == Some(namesize)
    requires ParseHex(Window(buf, 102, 110)) == Some(chksum)
    ensures AscHeader(buf) == Ok(Fixed(Info([], mode, mtime, size, Padded(110 + namesize), 4, 0), namesize))
  {
    hide ParseHex, Window, Padded;
  }

  lemma PaddedToFour(h: nat)
    requires h > 0
    ensures Padded(h) == AlignUp(h, 4)
  {
  }

  lemma PaddedToTwo(h: nat)
    ensures AlignUp(26 + h, 2) == 26 + h + h % 2
  {
  }

  /** The header of a member as it is to be found, without its name and place. */
  ghost function FixedOf(m: Member): Fixed
    requires ValidMember(m)
  {
    Fixed(Info([], ModeOf(m), TimeOf(m), |m.body|, |Header(m)|, Unit(m), 0), |m.name| + 1)
  }

  lemma HexParses(m: Member)
    requires ValidMember(m) && m.HexMember?
    ensures AscHeader(Start(m)) == Ok(FixedOf(m))
  {
    EntrySize(m);
    PaddedToFour(110 + |m.name| + 1);
    MagicTexts();
    var fs := m.fields;
    var buf := CMS_ASC + HexFields(fs);
    FieldParses(fs, 1); FieldParses(fs, 2); FieldParses(fs, 3); FieldParses(fs, 5); FieldParses(fs, 6);
    FieldParses(fs, 7); FieldParses(fs, 8); FieldParses(fs, 11); FieldParses(fs, 12);
    assert FixedOf(m) == Fixed(Info([], fs[1], fs[5], fs[6], Padded(110 + fs[11]), 4, 0), fs[11]);
    assert Start(m) == buf;
    hide *;
    AscFields(buf, fs[1], fs[2], fs[3], fs[5], fs[6], fs[7], fs[8], fs[11], fs[12]);
  }

  lemma WordAt(ws: seq<nat>, k: nat)
    requires k < |ws| && forall j :: 0 <= j < |ws| ==> ws[j] < 0x1_0000
    ensures U16(Words(ws), 2 * k) == ws[k]
  {
    assert Words(ws)[2 * k] as nat == ws[k] % 256 && Words(ws)[2 * k + 1] as nat == ws[k] / 256;
  }

  lemma HalvedBack(n: int)
    requires -0x8000_0000 <= n < 0x8000_0000
    ensures var lo, hi := Halved(n)[0], Halved(n)[1];
            lo < 0x1_0000 && hi < 0x1_0000 && n + (if hi < 0x8000 then 0 else 0x1_0000_0000) == lo + 0x1_0000 * hi
  {
  }

  lemma BinFields(buf: Bytes, mode: nat, mtime: int, namesize: nat, size: nat)
    requires |buf| == 26 && U16(buf, 6) == mode && namesize < 0x8000 && size < 0x8000_0000
    requires U16(buf, 16) == Halved(mtime)[0] && U16(buf, 18) == Halved(mtime)[1]
    requires -0x8000_0000 <= mtime < 0x8000_0000
    requires U16(buf, 20) == namesize && U16(buf, 22) == Halved(size)[0] && U16(buf, 24) == Halved(size)[1]
    ensures BinHeader(buf) == Ok(Fixed(Info([], mode, mtime, size, 26 + namesize + namesize % 2, 2, 0), namesize))
  {
    HalvedBack(mtime);
    HalvedBack(size);
    hide U16, Halved;
  }

  ghost function BinWords(m: Member): (r: seq<nat>)
    requires ValidMember(m) && m.BinMember?
    ensures |r| == 13 && (forall k :: 0 <= k < 13 ==> r[k] < 0x1_0000) && Start(m) == Words(r)
    ensures r[0] == 0x71c7 && r[3] == m.halves[2] && r[8..10] == Halved(m.mtime)
    ensures r[10] == |m.name| + 1 && r[11..13] == Halved(|m.body|)
  {
    [0x71c7] + m.halves + Halved(m.mtime) + [|m.name| + 1] + Halved(|m.body|)
  }

  lemma FixedBin(m: Member)
    requires ValidMember(m) && m.BinMember?
    ensures var n := |m.name| + 1;
            FixedOf(m) == Fixed(Info([], m.halves[2], m.mtime, |m.body|, 26 + n + n % 2, 2, 0), n)
  {
    EntrySize(m);
    PaddedToTwo(|m.name| + 1);
    hide AlignUp, Header, Start;
    assert |Header(m)| == AlignUp(26 + (|m.name| + 1), 2);
  }

  lemma BinParses(m: Member)
    requires ValidMember(m) && m.BinMember?
    ensures BinHeader(Start(m)) == Ok(FixedOf(m)) && U16(Start(m), 0) == 0x71c7
  {
    FixedBin(m);
    var ws, start := BinWords(m), Start(m);
    assert ws[8] == ws[8..10][0] && ws[9] == ws[8..10][1] && ws[11] == ws[11..13][0] && ws[12] == ws[11..13][1];
    assert start == Words(ws) && |start| == 26 && ws[10] < 0x8000;
    assert -0x8000_0000 <= m.mtime < 0x8000_0000 && |m.body| < 0x8000_0000;
    hide *;
    WordAt(ws, 0);
    WordAt(ws, 3); WordAt(ws, 8); WordAt(ws, 9); WordAt(ws, 10); WordAt(ws, 11); WordAt(ws, 12);
    BinFields(start, ws[3], m.mtime, ws[10], |m.body|);
  }

  ghost function InfoOf(m: Member, o: nat): Info
    requires ValidMember(m)
  {
    Info(m.name, ModeOf(m), TimeOf(m), |m.body|, |Header(m)|, Unit(m), o)
  }

  lemma InEntry(pre: Bytes, e: Bytes, post: Bytes, lo: nat, hi: nat)
    requires lo <= hi <= |e|
    ensures Window(pre + (e + post), |pre| + lo, |pre| + hi) == e[lo..hi]
  {
    WindowShift(pre, e + post, lo, hi);
    WindowPrefix(e, post, lo, hi);
  }

  /** The first bytes of a header: in either format they tell all but the name. */
  ghost predicate Begins(start: Bytes, h: Fixed) {
    || (|start| == 110 && start[0..6] == CMS_ASC && AscHeader(start) == Ok(h))
    || (|start| == 26 && U16(start, 0) == 0x71c7 && BinHeader(start) == Ok(h))
  }

  lemma ParsesAs(data: Bytes, o: nat, start: Bytes, name: Bytes, h: Fixed)
    requires Begins(start, h) && Window(data, o, o + |start|) == start && Window(data, o, o + 6) == start[0..6]
    requires h.namesize == |name| + 1 && Window(data, o + |start|, o + |start| + |name|) == name
    ensures ParseAt(data, o) == Ok(Some(h.info.(name := name, offset := o)))
  {
    hide Window, AscHeader, BinHeader;
    assert |start| == 26 ==> start[0..6][0] == start[0] && start[0..6][1] == start[1] && start[0] as nat != 48;
  }

  lemma EntryParses(pre: Bytes, e: Bytes, post: Bytes, start: Bytes, name: Bytes, body: Bytes, size: nat, h: Fixed)
    requires Begins(start, h) && h.namesize == |name| + 1
    requires 6 <= |start| && |start| + |name| < size <= size + |body| <= |e|
    requires e[0..|start|] == start
    requires e[|start|..|start| + |name|] == name && e[size..size + |body|] == body
    ensures var data := pre + (e + post);
            && ParseAt(data, |pre|) == Ok(Some(h.info.(name := name, offset := |pre|)))
            && Window(data, |pre| + size, |pre| + size + |body|) == body
  {
    hide *;
    InEntry(pre, e, post, 0, 6);
    assert e[0..6] == e[0..|start|][0..6];
    InEntry(pre, e, post, 0, |start|);
    InEntry(pre, e, post, |start|, |start| + |name|);
    InEntry(pre, e, post, size, size + |body|);
    ParsesAs(pre + (e + post), |pre|, start, name, h);
  }

  lemma Slices(start: Bytes, name: Bytes, pad: Bytes, header: Bytes, body: Bytes, end: Bytes)
    requires header == start + name + [0] + pad
    ensures var e, n := header + body + end, |start|;
            && n + |name| < |header| <= |header| + |body| <= |e| && e[0..n] == start && e[n..n + |name|] == name
            && e[|header|..|header| + |body|] == body
  {
    assert header + body + end == start + (name + ([0] + pad + body + end));
    assert header + body + end == header + (body + end);
  }

  lemma EntrySlices(m: Member)
    requires ValidMember(m)
    ensures var e, n := Entry(m), |Start(m)|;
            && n + |m.name| < |Header(m)| <= |Header(m)| + |m.body| <= |e|
            && e[0..n] == Start(m) && e[n..n + |m.name|] == m.name
            && e[|Header(m)|..|Header(m)| + |m.body|] == m.body
  {
    var start := Start(m) + m.name + [0];
    var pad := Zeros(AlignUp(|start|, Unit(m)) - |start|);
    var end := Zeros(AlignUp(|m.body|, Unit(m)) - |m.body|);
    assert Header(m) == start + pad && Entry(m) == Header(m) + m.body + end;
    hide *;
    Slices(Start(m), m.name, pad, Header(m), m.body, end);
  }

  lemma HeaderBegins(m: Member)
    requires ValidMember(m)
    ensures Begins(Start(m), FixedOf(m))
  {
    if m.HexMember? {
      HexParses(m);
      MagicTexts();
      assert Start(m)[0..6] == CMS_ASC;
    } else {
      BinParses(m);
    }
  }

  lemma InfoIs(m: Member, o: nat)
    requires ValidMember(m)
    ensures InfoOf(m, o) == FixedOf(m).info.(name := m.name, offset := o) && FixedOf(m).namesize == |m.name| + 1
    ensures |Start(m)| >= 6
  {
    hide Header, ValidMember;
  }

  /** A member is found where it was written, with its name, mode, time, size and data. */
  lemma ParseEncoded(pre: Bytes, m: Member, post: Bytes)
    requires ValidMember(m)
    ensures var data := pre + (Entry(m) + post);
            && ParseAt(data, |pre|) == Ok(Some(InfoOf(m, |pre|)))
            && Window(data, |pre| + |Header(m)|, |pre| + |Header(m)| + |m.body|) == m.body
  {
    hide *;
    HeaderBegins(m);
    EntrySlices(m);
    InfoIs(m, |pre|);
    var h := FixedOf(m);
    EntryParses(pre, Entry(m), post, Start(m), m.name, m.body, |Header(m)|, h);
  }

  lemma AlignFours(a: nat, n: nat)
    requires a % 4 == 0
    ensures AlignUp(a + n, 4) == a + AlignUp(n, 4) && (a + AlignUp(n, 4)) % 4 == 0
  {
  }

  lemma AlignTwos(a: nat, n: nat)
    requires a % 2 == 0
    ensures AlignUp(a + n, 2) == a + AlignUp(n, 2) && (a + AlignUp(n, 2)) % 2 == 0
  {
  }

  lemma AlignMultiple(a: nat, n: nat, unit: nat)
    requires unit in {2, 4} && a % unit == 0
    ensures AlignUp(a + n, unit) == a + AlignUp(n, unit) && (a + AlignUp(n, unit)) % unit == 0
  {
    hide AlignUp;
    if unit == 4 { AlignFours(a, n); } else { AlignTwos(a, n); }
  }

  lemma SumOfFours(a: nat, n: nat)
    ensures a % 4 == 0 && n % 4 == 0 ==> (a + n) % 4 == 0
  {
  }

  lemma SumOfTwos(a: nat, n: nat)
    ensures a % 2 == 0 && n % 2 == 0 ==> (a + n) % 2 == 0
  {
  }

  lemma AlignAgain(a: nat, n: nat, unit: nat)
    requires unit in {2, 4} && a % unit == 0 && n % unit == 0
    ensures (a + n) % unit == 0
  {
    if unit == 4 { SumOfFours(a, n); } else { SumOfTwos(a, n); }
  }

  lemma NextIs(m: Member, o: nat)
    requires ValidMember(m)
    ensures InfoOf(m, o).Next() == AlignUp(o + |Header(m)| + |m.body|, Unit(m)) && Unit(m) in {2, 4}
  {
    hide AlignUp, Header, ValidMember;
  }

  /** The next header is looked for where the next entry was written. */
  lemma NextEntry(m: Member, o: nat)
    requires ValidMember(m) && o % Unit(m) == 0
    ensures InfoOf(m, o).Next() == o + |Entry(m)| && (o + |Entry(m)|) % Unit(m) == 0
  {
    hide *;
    NextIs(m, o);
    EntrySize(m);
    AlignUpIs(|Start(m)| + |m.name| + 1, Unit(m));
    AlignAgain(o, |Header(m)|, Unit(m));
    AlignMultiple(o + |Header(m)|, |m.body|, Unit(m));
  }

  lemma EntriesFirst(pre: Bytes, ms: seq<Member>, end: Bytes)
    requires ms != [] && forall m :: m in ms ==> ValidMember(m)
    ensures ValidMember(ms[0])
    ensures pre + (Entries(ms) + end) == pre + (Entry(ms[0]) + (Entries(ms[1..]) + end))
    ensures pre + (Entries(ms) + end) == (pre + Entry(ms[0])) + (Entries(ms[1..]) + end)
  {
    hide ValidMember, Entry;
    assert ms[0] in ms;
    assert Entries(ms) + end == Entry(ms[0]) + (Entries(ms[1..]) + end);
  }

  /** The member found is the one written. */
  ghost predicate Found(data: Bytes, i: Info, m: Member) {
    && ValidMember(m) && i.name == m.name && i.mode == ModeOf(m) && i.mtime == TimeOf(m)
    && Window(data, i.DataOffset(), i.DataOffset() + i.size) == m.body
  }

  lemma FoundAt(data: Bytes, m: Member, o: nat)
    requires ValidMember(m) && Window(data, o + |Header(m)|, o + |Header(m)| + |m.body|) == m.body
    ensures Found(data, InfoOf(m, o), m) && InfoOf(m, o).name == m.name
  {
    hide Window, Header;
  }

  lemma FoundMore(data: Bytes, i: Info, w: seq<Info>, ms: seq<Member>)
    requires ms != [] && |w| == |ms| - 1 && Found(data, i, ms[0]) && forall k :: 0 <= k < |w| ==>
             Found(data, w[k], ms[1..][k])
    ensures forall k :: 0 <= k < |ms| ==> Found(data, ([i] + w)[k], ms[k])
  {
    hide Found;
    forall k | 0 <= k < |ms| ensures Found(data, ([i] + w)[k], ms[k]) {
      if k > 0 { assert ms[k] == ms[1..][k - 1] && ([i] + w)[k] == w[k - 1]; }
    }
  }

  lemma WalkUnfold(data: Bytes, o: nat, i: Info)
    requires ParseAt(data, o) == Ok(Some(i)) && i.name != TRAILER
    ensures Walk(data, o) == [i] + Walk(data, i.Next()) && WalkFails(data, o) == WalkFails(data, i.Next())
  {
    hide ParseAt;
  }

  /** The members of an archive and its trailer, all in one format. */
  ghost predicate Archived(ms: seq<Member>, trailer: Member) {
    && ValidMember(trailer) && trailer.name == Ascii("TRAILER!!!")
    && forall m :: m in ms ==> ValidMember(m) && m.HexMember? == trailer.HexMember? && m.name != Ascii("TRAILER!!!")
  }

  lemma ArchivedValid(ms: seq<Member>, trailer: Member)
    requires Archived(ms, trailer)
    ensures ValidMember(trailer) && forall m :: m in ms ==> ValidMember(m)
  {
    hide ValidMember, Ascii;
  }

  lemma ArchivedRest(ms: seq<Member>, trailer: Member)
    requires Archived(ms, trailer) && ms != []
    ensures ValidMember(ms[0]) && Unit(ms[0]) == Unit(trailer) && ms[0].name != TRAILER && Archived(ms[1..], trailer)
  {
    MagicTexts();
    hide ValidMember;
    assert ms[0] in ms;
  }

  lemma WalkNone(pre: Bytes, ms: seq<Member>, trailer: Member, tail: Bytes)
    requires Archived(ms, trailer) && ms == []
    ensures ValidMember(trailer)
    ensures var data := pre + (Entries(ms) + (Entry(trailer) + tail));
            Walk(data, |pre|) == [] && !WalkFails(data, |pre|)
  {
    MagicTexts();
    hide ValidMember, Entry, Header, ParseAt, Ascii;
    var end := Entry(trailer) + tail;
    assert Entries(ms) + end == end;
    ParseEncoded(pre, trailer, tail);
  }

  /** Walking through an archive finds the members it was made of, in order, and
      no error; whatever follows the trailer is not looked at. */
  lemma {:induction false} WalkEncoded(pre: Bytes, ms: seq<Member>, trailer: Member, tail: Bytes)
    requires |pre| % Unit(trailer) == 0 && Archived(ms, trailer)
    ensures var data := pre + (Entries(ms) + (Entry(trailer) + tail));
            var w := Walk(data, |pre|);
            && !WalkFails(data, |pre|) && |w| == |ms|
            && forall k :: 0 <= k < |ms| ==> Found(data, w[k], ms[k])
    decreases |ms|
  {
    hide *;
    ArchivedValid(ms, trailer);
    var end := Entry(trailer) + tail;
    if ms == [] {
      WalkNone(pre, ms, trailer, tail);
    } else {
      var m, rest := ms[0], ms[1..];
      ArchivedRest(ms, trailer);
      EntriesFirst(pre, ms, end);
      ParseEncoded(pre, m, Entries(rest) + end);
      NextEntry(m, |pre|);
      WalkEncoded(pre + Entry(m), rest, trailer, tail);
      var data := pre + (Entries(ms) + end);
      FoundAt(data, m, |pre|);
      WalkUnfold(data, |pre|, InfoOf(m, |pre|));
      FoundMore(data, InfoOf(m, |pre|), Walk(data, |pre| + |Entry(m)|), ms);
    }
  }

  /** The type bits of the mode say that it is a regular file. */
  ghost predicate Regular(m: Member)
    requires ValidMember(m)
  {
    ModeOf(m) / 4096 % 16 == 8
  }

  /** The first header of an archive that has members, and of one that has only its trailer. */
  lemma FirstHeader(ms: seq<Member>, trailer: Member, tail: Bytes)
    requires Archived(ms, trailer)
    ensures var data := Entries(ms) + (Entry(trailer) + tail);
            && ParseAt(data, 0).Ok?
            && (ms != [] ==> MemberAt(data, 0).Some?)
            && (ms == [] ==> MemberAt(data, 0).None? && Behind(data, 0) == |Entry(trailer)|)
  {
    MagicTexts();
    hide ValidMember, Entry, Header, ParseAt, Ascii;
    var end := Entry(trailer) + tail;
    if ms == [] {
      assert Entries(ms) + end == end == [] + end;
      ParseEncoded([], trailer, tail);
      NextEntry(trailer, 0);
    } else {
      EntriesFirst([], ms, end);
      assert [] + (Entries(ms) + end) == Entries(ms) + end;
      ArchivedRest(ms, trailer);
      ParseEncoded([], ms[0], Entries(ms[1..]) + end);
    }
  }

  lemma StartsWithout(data: Bytes)
    requires MemberAt(data, 0).None? && ParseAt(data, 0).Ok?
    ensures !WalkFails(data, 0)
  {
    hide ParseAt;
  }

  lemma FoundData(data: Bytes, i: Info, m: Member)
    requires Found(data, i, m)
    ensures DataOf(data, i) == if Regular(m) then Some(m.body) else None
  {
  }

  /** From bytes that come in chunks of any size to the contents of every regular
      member: an archive read forward gives back what was written into it.  Of an
      archive that has only its trailer, what is read is whatever follows this. */
  method ExtractWritten(source: Source, bufsize: nat, ghost ms: seq<Member>, ghost trailer: Member, ghost tail: Bytes)
      returns (r: Result<seq<Option<Bytes>>, CpioError>)
    requires bufsize > 0 && Archived(ms, trailer)
    requires source.rest == Entries(ms) + (Entry(trailer) + tail)
    modifies source
    ensures ms != [] ==>
              && r.Ok? && |r.value| == |ms|
              && forall k :: 0 <= k < |ms| ==> r.value[k] == if Regular(ms[k]) then Some(ms[k].body) else None
    ensures ms == [] ==>
              var data, n := Entry(trailer) + tail, |Entry(trailer)|;
              && (r.Err? <==> WalkFails(data, n))
              && (r.Ok? ==> |r.value| == |Walk(data, n)| && forall k :: 0 <= k < |r.value| ==>
                 r.value[k] == DataOf(data, Walk(data, n)[k]))
  {
    WalkEncoded([], ms, trailer, tail);
    FirstHeader(ms, trailer, tail);
    ghost var data := source.rest;
    assert [] + data == data;
    if ms == [] { assert data == Entry(trailer) + tail; }
    if MemberAt(data, 0).None? { StartsWithout(data); }
    hide Walk, WalkFails, Entries, Entry, ValidMember, Found, DataOf, Regular, ParseAt, MemberAt, Behind;
    var stream := new InStream(source, bufsize);
    var first := CpioFile.Open(stream);
    var f := first.value;
    r := ReadInOrder(f);
    if ms != [] {
      forall k | 0 <= k < |ms| ensures r.value[k] == if Regular(ms[k]) then Some(ms[k].body) else None {
        FoundData(data, Walk(data, 0)[k], ms[k]);
      }
    }
  }
}
