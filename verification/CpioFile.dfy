/** Walking through an archive and reading its members
    (src/modules/cpiofile.py, CpioFile and CpioIter). */
module CpioFiles {
  import opened Common
  import opened Octets
  import opened Streams
  import opened ExFiles
  import opened CpioHeaders

  /** "TRAILER!!!" */
  const TRAILER: Bytes := [84, 82, 65, 73, 76, 69, 82, 33, 33, 33]

  /** The member whose header is at `o`; None where the archive ends. */
  function MemberAt(data: Bytes, o: nat): Option<Info> {
    match ParseAt(data, o)
    case Ok(Some(i)) => if i.name == TRAILER then None else Some(i)
    case _ => None
  }

  lemma MemberSane(data: Bytes, o: nat)
    requires MemberAt(data, o).Some?
    ensures var i := MemberAt(data, o).value; o < |data| && Sane(i, o) && i.Next() >= i.DataOffset() + i.size > o
  {
    ParsedSane(data, o);
    hide ParseAt, Sane;
  }

  /** The members of the archive, from the one at `o` on. */
  function Walk(data: Bytes, o: nat): seq<Info>
    decreases |data| - o
  {
    if MemberAt(data, o).None? then []
    else
      MemberSane(data, o);
      [MemberAt(data, o).value] + Walk(data, MemberAt(data, o).value.Next())
  }

  /** Whether that walk ends in an error. */
  predicate WalkFails(data: Bytes, o: nat)
    decreases |data| - o
  {
    if MemberAt(data, o).None? then ParseAt(data, o).Err? && (ParseAt(data, o).error != Invalid || o == 0)
    else
      MemberSane(data, o);
      WalkFails(data, MemberAt(data, o).value.Next())
  }

  /** Where the walk goes on behind what is at `o`. */
  function Behind(data: Bytes, o: nat): nat {
    match ParseAt(data, o)
    case Ok(Some(i)) => i.Next()
    case _ => o
  }

  /** Members that begin between `o` and `end`, in order, none reaching into the next. */
  ghost predicate Disjoint(w: seq<Info>, o: nat, end: nat) {
    && (forall k :: 0 <= k < |w| ==> o <= w[k].offset < end && Sane(w[k], w[k].offset))
    && (forall j, k :: 0 <= j < k < |w| ==> w[j].offset + w[j].hdrsize + w[j].size <= w[k].offset)
  }

  lemma DisjointCons(i: Info, w: seq<Info>, o: nat, next: nat, end: nat)
    requires Sane(i, o) && i.offset == o < end && Disjoint(w, next, end) && o + i.hdrsize + i.size <= next
    ensures Disjoint([i] + w, o, end)
  {
    hide Sane;
  }

  /** Members come in the order of their headers, and no two overlap. */
  lemma {:induction false} WalkInOrder(data: Bytes, o: nat)
    ensures Disjoint(Walk(data, o), o, |data|)
    decreases |data| - o
  {
    if MemberAt(data, o).Some? {
      MemberSane(data, o);
      var i := MemberAt(data, o).value;
      hide MemberAt, AlignUp, Disjoint;
      WalkInOrder(data, i.Next());
      DisjointCons(i, Walk(data, i.Next()), o, i.Next(), |data|);
    }
  }

  datatype CpioError = ReadError | StructError | NegativeSize | SoughtBackwards

  lemma Subslice(data: Bytes, o: nat, n: nat, lo: nat, hi: nat)
    requires lo <= hi <= n && o + n <= |data|
    ensures data[o..o + n][lo..hi] == data[o + lo..o + hi]
  {
    var a, b := data[o..o + n][lo..hi], data[o + lo..o + hi];
    forall i | 0 <= i < hi - lo ensures a[i] == b[i] {
      assert a[i] == data[o..o + n][lo + i] == data[o + (lo + i)];
    }
  }

  lemma WindowOfWindow(data: Bytes, o: nat, n: nat, lo: nat, hi: nat)
    requires hi <= n
    ensures Window(Window(data, o, o + n), lo, hi) == Window(data, o + lo, o + hi)
  {
    var w := Window(data, o, o + n);
    if lo < |w| && lo < hi {
      var top := Min(hi, |w|);
      assert w == data[o..o + |w|];
      Subslice(data, o, |w|, lo, top);
      assert Window(data, o + lo, o + hi) == data[o + lo..o + top];
    }
  }

  lemma NameInBuffer(data: Bytes, o: nat, length: nat, namesize: nat)
    ensures NameIn(Window(data, o, o + length + namesize), length, namesize) == NameIn(data, o + length, namesize)
  {
    WindowOfWindow(data, o, length + namesize, length, if namesize == 0 then length else length + namesize - 1);
  }

  /** The first `n` bytes that follow `o` have been read, as far as there are any. */
  ghost predicate Buffered(f: InStream, o: nat, buf: Bytes, n: nat)
    reads f, f.fileobj
  {
    f.Valid() && o <= |f.data| && buf == Window(f.data, o, o + n) && f.pos == o + |buf|
  }

  /** The buffer is read on, up to `n` bytes. */
  method ReadOn(f: InStream, buf: Bytes, n: nat, ghost o: nat, ghost m: nat) returns (r: Bytes)
    requires m <= n && Buffered(f, o, buf, m)
    modifies f`buf, f`pos, f.fileobj
    ensures Buffered(f, o, r, n)
  {
    var more := f.Read(n - |buf|);
    r := buf + more;
  }

  lemma WindowLength(data: Bytes, lo: nat, hi: nat)
    requires lo <= hi && lo <= |data|
    ensures lo + |Window(data, lo, hi)| == Min(hi, |data|)
  {
  }

  /** The name and the padding that complete a header of which `length` bytes were read. */
  method ReadName(f: InStream, buf: Bytes, h: Fixed, length: nat, ghost o: nat) returns (i: Info)
    requires Buffered(f, o, buf, length) && length + h.namesize <= h.info.hdrsize
    modifies f`buf, f`pos, f.fileobj
    ensures i == h.info.(name := NameIn(f.data, o + length, h.namesize))
    ensures f.Valid() && f.pos == Min(o + h.info.hdrsize, |f.data|)
  {
    hide Window, NameIn;
    var whole := ReadOn(f, buf, length + h.namesize, o, length);
    NameInBuffer(f.data, o, length, h.namesize);
    i := h.info.(name := NameIn(whole, length, h.namesize));
    ghost var read := ReadOn(f, whole, h.info.hdrsize, o, length + h.namesize);
    WindowLength(f.data, o, o + h.info.hdrsize);
  }

  lemma AscLength(buf: Bytes)
    requires AscHeader(buf).Ok?
    ensures 110 + AscHeader(buf).value.namesize <= AscHeader(buf).value.info.hdrsize
  {
    var ns := ParseHex(Window(buf, 94, 102)).value;
    PaddedIs(110 + ns);
    hide ParseHex, Window, Padded;
  }

  lemma BinLength(buf: Bytes)
    requires BinHeader(buf).Ok?
    ensures 26 + BinHeader(buf).value.namesize <= BinHeader(buf).value.info.hdrsize
  {
  }

  /** A header was read as it is at `o`, and all of its bytes; or the same error was found. */
  ghost predicate HeaderRead(f: InStream, r: Result<Info, HeaderError>, parsed: Result<Info, HeaderError>, o: nat)
    reads f, f.fileobj
  {
    && f.Valid() && f.pos >= o
    && match parsed
       case Err(e) => r == Err(e)
       case Ok(i) => r.Ok? && r.value.(offset := i.offset) == i && f.pos == Min(o + i.hdrsize, |f.data|)
  }

  /** The rest of a header in the hexadecimal format. */
  method ReadAsc(f: InStream, start: Bytes, ghost o: nat) returns (r: Result<Info, HeaderError>)
    requires Buffered(f, o, start, 6)
    modifies f`buf, f`pos, f.fileobj
    ensures HeaderRead(f, r, ParseAsc(f.data, o), o)
  {
    hide AscHeader, Window, NameIn;
    var buf := ReadOn(f, start, 110, o, 6);
    var h := AscHeader(buf);
    if h.Err? { return Err(h.error); }
    AscLength(buf);
    var i := ReadName(f, buf, h.value, 110, o);
    r := Ok(i);
  }

  /** The rest of a header in the binary format. */
  method ReadBin(f: InStream, start: Bytes, ghost o: nat) returns (r: Result<Info, HeaderError>)
    requires Buffered(f, o, start, 6)
    modifies f`buf, f`pos, f.fileobj
    ensures HeaderRead(f, r, ParseBin(f.data, o), o)
  {
    hide BinHeader, Window, NameIn;
    var buf := ReadOn(f, start, 26, o, 6);
    var h := BinHeader(buf);
    if h.Err? { return Err(h.error); }
    BinLength(buf);
    var i := ReadName(f, buf, h.value, 26, o);
    r := Ok(i);
  }

  lemma ParsedOffset(data: Bytes, o: nat)
    ensures ParseAsc(data, o).Ok? ==> ParseAsc(data, o).value.offset == o
    ensures ParseBin(data, o).Ok? ==> ParseBin(data, o).value.offset == o
  {
    hide AscHeader, BinHeader, NameIn;
  }

  /** The format is decided by the first bytes. */
  lemma ParseAtBy(data: Bytes, o: nat)
    ensures var magic, p := Window(data, o, o + 6), ParseAt(data, o);
            if magic == [] then p == Ok(None)
            else if magic == CMS_ASC then
              if ParseAsc(data, o).Err? then p == Err(ParseAsc(data, o).error)
              else p == Ok(Some(ParseAsc(data, o).value))
            else if magic == CMS_CHR || magic == CMS_CRC then p == Err(Invalid)
            else if |magic| < 2 then p == Err(Truncated)
            else if U16(magic, 0) == CMN_BIN then
              if ParseBin(data, o).Err? then p == Err(ParseBin(data, o).error)
              else p == Ok(Some(ParseBin(data, o).value))
            else p == Err(Invalid)
  {
    hide Window, ParseAsc, ParseBin, U16;
  }

  /** `CpioInfo.frombuf`, from the first bytes on: the header at the stream's position. */
  method ReadHeader(f: InStream) returns (r: Result<Option<Info>, HeaderError>)
    requires f.Valid()
    modifies f`buf, f`pos, f.fileobj
    ensures f.Valid() && f.pos >= old(f.pos)
    ensures r.Err? <==> ParseAt(f.data, old(f.pos)).Err?
    ensures r.Err? ==> r.error == ParseAt(f.data, old(f.pos)).error
    ensures r.Ok? ==> (r.value.Some? <==> ParseAt(f.data, old(f.pos)).value.Some?)
    ensures r.Ok? && r.value.None? ==> f.pos == old(f.pos)
    ensures r.Ok? && r.value.Some? ==>
      var i := ParseAt(f.data, old(f.pos)).value.value;
      r.value.value.(offset := i.offset) == i && f.pos == Min(i.DataOffset(), |f.data|)
  {
    ghost var o := f.pos;
    hide ParseAt, ParseAsc, ParseBin, Window, U16;
    ParsedOffset(f.data, o);
    ParseAtBy(f.data, o);
    var buf := f.Read(6);
    if buf == [] { return Ok(None); }
    if buf == CMS_ASC {
      var i := ReadAsc(f, buf, o);
      r := if i.Err? then Err(i.error) else Ok(Some(i.value));
    } else if buf == CMS_CHR || buf == CMS_CRC {
      return Err(Invalid);
    } else if |buf| < 2 {
      return Err(Truncated);
    } else if U16(buf, 0) == CMN_BIN {
      var i := ReadBin(f, buf, o);
      r := if i.Err? then Err(i.error) else Ok(Some(i.value));
    } else {
      return Err(Invalid);
    }
  }

  /** What is found at the offset is the member that follows those found before. */
  lemma WalkOne(members: seq<Info>, data: Bytes, o: nat)
    ensures var w := members + Walk(data, o);
            MemberAt(data, o) == if |members| < |w| then Some(w[|members|]) else None
    ensures MemberAt(data, o).Some? ==> MemberAt(data, o).value.size < 0x1_0000_0000
  {
    if MemberAt(data, o).Some? { MemberSane(data, o); }
    hide MemberAt;
  }

  /** Beyond its end, an archive has no header either. */
  lemma BeyondEnd(data: Bytes, target: nat, o: nat)
    requires o == if target <= |data| then target else |data|
    ensures ParseAt(data, target) == ParseAt(data, o) && MemberAt(data, target) == MemberAt(data, o)
    ensures ParseAt(data, o).Ok? && ParseAt(data, o).value.Some? ==> o == target
  {
  }

  lemma AtStart(data: Bytes)
    ensures MemberAt(data, 0).None? ==> WalkFails(data, 0) == ParseAt(data, 0).Err?
    ensures MemberAt(data, 0).Some? ==>
              var i := MemberAt(data, 0).value;
              && Walk(data, 0) == [i] + Walk(data, i.Next()) && WalkFails(data, 0) == WalkFails(data, i.Next())
              && i.DataOffset() + i.size <= i.Next() && i.size < 0x1_0000_0000
  {
    if MemberAt(data, 0).Some? { MemberSane(data, 0); }
    hide ParseAt;
  }

  lemma FailsStep(data: Bytes, o: nat)
    ensures MemberAt(data, o).Some? ==>
              WalkFails(data, o) == WalkFails(data, MemberAt(data, o).value.Next())
              && Walk(data, o) == [MemberAt(data, o).value] + Walk(data, MemberAt(data, o).value.Next())
    ensures MemberAt(data, o).None? ==> Walk(data, o) == []
  {
    hide ParseAt, Sane;
  }

  lemma WalkStep(members: seq<Info>, data: Bytes, i: Info)
    requires MemberAt(data, i.offset) == Some(i)
    ensures members + Walk(data, i.offset) == members + [i] + Walk(data, i.Next())
    ensures WalkFails(data, i.offset) == WalkFails(data, i.Next())
  {
    hide MemberAt;
  }

  class CpioFile {
    const fileobj: InStream
    var members: seq<Info>
    var loaded: bool
    var offset: nat
    var firstmember: Option<Info>
    ghost var ended: bool      // whether the end of the archive has been met

    ghost predicate Valid()
      reads this, fileobj, fileobj.fileobj
    {
      && fileobj.Valid()
      && (!ended ==> members + Walk(fileobj.data, offset) == Walk(fileobj.data, 0))
      && (!ended ==> WalkFails(fileobj.data, offset) == WalkFails(fileobj.data, 0))
      && (ended ==> Walk(fileobj.data, 0) <= members)
      && (firstmember.Some? ==> members == [firstmember.value] && !ended)
      && (firstmember.Some? ==>
         firstmember.value.DataOffset() + firstmember.value.size <= offset && firstmember.value.size < 0x1_0000_0000)
      && (loaded ==> ended)
    }

    /** What comes next is not behind the stream's position. */
    predicate Ahead()
      reads this, fileobj
    {
      fileobj.pos <= if firstmember.Some? then firstmember.value.DataOffset() else offset
    }

    /** The members still to be handed out before the archive ends (once more). */
    ghost function Pending(): seq<Info>
      reads this, fileobj
    {
      (if firstmember.Some? then [firstmember.value] else []) + Walk(fileobj.data, offset)
    }

    constructor (fileobj: InStream)
      requires fileobj.Valid()
      ensures Valid() && Ahead() == (fileobj.pos == 0) && this.fileobj == fileobj
      ensures members == [] && !loaded && !ended && offset == 0 && firstmember == None
    {
      this.fileobj := fileobj;
      members, loaded, offset, firstmember, ended := [], false, 0, None, false;
    }

    /** How many members have been handed out. */
    ghost function Taken(): nat
      reads this
    {
      if firstmember.Some? then 0 else |members|
    }

    /** The header at the current offset.  Behind a trailer, reading goes on; where
        there was none or an invalid one, the offset stays. */
    method ReadNext() returns (r: Result<Option<Info>, CpioError>)
      requires Valid() && Ahead() && firstmember == None
      modifies this, fileobj, fileobj.fileobj
      ensures Valid() && firstmember == None && loaded == old(loaded)
      ensures r.Err? <==> MemberAt(fileobj.data, old(offset)).None? && WalkFails(fileobj.data, old(offset))
      ensures r.Err? ==> members == old(members) && ended == old(ended) && offset == old(offset)
      ensures r.Ok? ==> r.value == MemberAt(fileobj.data, old(offset)) && ended == (old(ended) || r.value.None?)
      ensures r.Ok? ==> offset == Behind(fileobj.data, old(offset))
      ensures r.Ok? && r.value.Some? ==>
                && Ahead() && members == old(members) + [r.value.value] && offset == r.value.value.Next()
                   && r.value.value.offset == old(offset)
                && fileobj.pos <= r.value.value.DataOffset() <= r.value.value.DataOffset() +
                   r.value.value.size <= offset
      ensures r.Ok? && r.value.None? ==> members == old(members) && (Ahead() || ParseAt(fileobj.data, old(offset)).Err?)
    {
      hide ParseAt, Sane;
      var header := FetchHeader();
      if header.Err? {
        if header.error == Truncated { return Err(StructError); }
        if header.error == Negative { return Err(NegativeSize); }
        if offset == 0 { return Err(ReadError); }
        ended := true;
        return Ok(None);
      }
      if header.value.None? {
        ended := true;
        return Ok(None);
      }
      var i := header.value.value;
      ParsedSane(fileobj.data, offset);
      offset := i.Next();
      if i.name == TRAILER {
        ended := true;
        return Ok(None);
      }
      WalkStep(members, fileobj.data, i);
      hide MemberAt;
      members := members + [i];
      r := Ok(Some(i));
    }

    /** The member read on opening is the first to be handed out. */
    method KeepFirst(first: Option<Info>)
      requires Valid() && firstmember == None && (first.None? ==> Ahead())
      requires first.Some? ==>
                 && members == [first.value] && !ended && fileobj.pos <= first.value.DataOffset()
                 && first.value.DataOffset() + first.value.size <= offset && first.value.size < 0x1_0000_0000
      modifies this`firstmember
      ensures Valid() && Ahead() && firstmember == first
      ensures Pending() == (if first.Some? then [first.value] else []) + Walk(fileobj.data, offset)
      ensures first.None? ==> Pending() == Walk(fileobj.data, offset)
    {
      hide Walk, WalkFails;
      firstmember := first;
      assert [] + Walk(fileobj.data, offset) == Walk(fileobj.data, offset);
    }

    /** Opens an archive for reading: its first header is read at once.  When this is
        the trailer already, what is read next is what follows it. */
    static method Open(fileobj: InStream) returns (r: Result<CpioFile, CpioError>)
      requires fileobj.Valid() && fileobj.pos == 0
      modifies fileobj, fileobj.fileobj
      ensures r.Err? <==> MemberAt(fileobj.data, 0).None? && WalkFails(fileobj.data, 0)
      ensures r.Ok? ==>
              fresh(r.value) && r.value.fileobj == fileobj && r.value.Valid() && r.value.Ahead()
              && !r.value.loaded
      ensures r.Ok? ==> var start := if MemberAt(fileobj.data, 0).Some? then 0 else Behind(fileobj.data, 0);
                        r.value.Pending() == Walk(fileobj.data, start)
                          && WalkFails(fileobj.data, r.value.offset) == WalkFails(fileobj.data, start)
    {
      AtStart(fileobj.data);
      hide *;
      var f := new CpioFile(fileobj);
      var first := f.ReadNext();
      if first.Err? { return Err(first.error); }
      f.KeepFirst(first.value);
      r := Ok(f);
    }

    /** The next member, each once and in order; None where the archive ends.  When
        it is called again then, it finds what is behind the trailer. */
    method Next() returns (r: Result<Option<Info>, CpioError>)
      requires Valid()
      modifies this, fileobj, fileobj.fileobj
      ensures Valid() && loaded == old(loaded) && firstmember == None
      ensures old(Ahead()) ==> (r.Err? <==> old(Pending()) == [] && WalkFails(fileobj.data, old(offset)))
      ensures !old(Ahead()) && old(firstmember) == None ==> r == Err(SoughtBackwards)
      ensures r.Err? ==> members == old(members) && ended == old(ended) && (old(Ahead()) || r.error == SoughtBackwards)
      ensures r.Ok? ==>
              r.value == (if old(Pending()) == [] then None else Some(old(Pending())[0]))
              && ended == (old(ended) || r.value.None?)
      ensures r.Ok? && r.value.None? ==> members == old(members)
      ensures r.Ok? && r.value.Some? ==>
        && Pending() == old(Pending())[1..] && (old(Ahead()) ==> Ahead())
           && WalkFails(fileobj.data, offset) == WalkFails(fileobj.data, old(offset))
        && members == old(members) + (if old(firstmember).Some? then [] else [r.value.value])
           && Taken() == old(Taken()) + 1
        && (old(Ahead()) ==> fileobj.pos <= r.value.value.DataOffset())
        && r.value.value.DataOffset() + r.value.value.size <= offset && r.value.value.size < 0x1_0000_0000
    {
      hide Walk, WalkFails, MemberAt, ParseAt, Sane, AlignUp;
      if firstmember.Some? {
        r := Ok(firstmember);
        firstmember := None;
        return;
      }
      if offset < fileobj.pos { return Err(SoughtBackwards); }
      WalkOne([], fileobj.data, offset);
      FailsStep(fileobj.data, offset);
      r := ReadNext();
    }

    /** All the members, read to the end of the archive if need be. */
    method GetMembers() returns (r: Result<seq<Info>, CpioError>)
      requires Valid()
      modifies this, fileobj, fileobj.fileobj
      ensures Valid()
      ensures r.Err? ==> !old(loaded) && (WalkFails(fileobj.data, old(offset)) || !old(Ahead()))
      ensures r.Ok? ==> loaded && r.value == members
      ensures r.Ok? ==> members == if old(loaded) then old(members) else old(members) + Walk(fileobj.data, old(offset))
      ensures r.Ok? && !old(ended) ==> r.value == Walk(fileobj.data, 0)
    {
      hide Walk, WalkFails;
      if !loaded {
        var failed := Load();
        if failed.Some? { return Err(failed.value); }
      }
      r := Ok(members);
    }

    method Load() returns (error: Option<CpioError>)
      requires Valid()
      modifies this, fileobj, fileobj.fileobj
      ensures Valid()
      ensures error.Some? ==> WalkFails(fileobj.data, old(offset)) || !old(Ahead())
      ensures error.None? ==> loaded && members == old(members) + Walk(fileobj.data, old(offset))
    {
      hide Walk, WalkFails;
      ghost var all := members + Walk(fileobj.data, offset);
      while true
        invariant Valid() && (old(Ahead()) ==> Ahead()) && Taken() + |Pending()| == |all|
        invariant members + Walk(fileobj.data, offset) == all
                  && WalkFails(fileobj.data, offset) == WalkFails(fileobj.data, old(offset))
        decreases |Pending()|
      {
        ghost var rest, kept := Walk(fileobj.data, offset), firstmember.Some?;
        var r := Next();
        if r.Err? { return Some(r.error); }
        if r.value.None? {
          assert rest == [] && members == all;
          break;
        }
        assert Pending() == Walk(fileobj.data, offset);
        if !kept { assert rest == [rest[0]] + rest[1..]; }
      }
      loaded := true;
      error := None;
    }

    /** A member's data, for regular files only. */
    method ExtractFile(i: Info) returns (r: Option<ExFileObject>)
      requires fileobj.Valid() && i.size < 0x1_0000_0000
      ensures r.Some? <==> i.IsReg()
      ensures r.Some? ==>
              fresh(r.value) && r.value.Valid() && r.value.fileobj == fileobj && r.value.pos == 0 && !r.value.closed
              && r.value.offset == i.DataOffset() && r.value.size == i.size
    {
      if !i.IsReg() { return None; }
      var x := new ExFileObject(fileobj, i.DataOffset(), i.size);
      r := Some(x);
    }

    method FetchHeader() returns (header: Result<Option<Info>, HeaderError>)
      requires fileobj.Valid() && fileobj.pos <= offset
      modifies fileobj, fileobj.fileobj
      ensures fileobj.Valid() && header == ParseAt(fileobj.data, offset)
      ensures header.Ok? ==> fileobj.pos <= if header.value.Some? then header.value.value.DataOffset() else offset
    {
      hide ParseAt, Sane;
      var sought := fileobj.Seek(offset);
      ghost var o := fileobj.pos;
      BeyondEnd(fileobj.data, offset, o);
      header := ReadHeader(fileobj);
      if header.Ok? && header.value.Some? {
        ParsedSane(fileobj.data, o);
        header := Ok(Some(header.value.value.(offset := offset)));
      }
    }
  }

  /** Iterating over the members of an archive, loaded or not. */
  class CpioIter {
    const cpiofile: CpioFile
    var index: nat

    constructor (cpiofile: CpioFile)
      ensures this.cpiofile == cpiofile && index == 0
    {
      this.cpiofile, this.index := cpiofile, 0;
    }

    /** This iterator alone has taken members from the archive, or all of them have been read. */
    ghost predicate InStep()
      reads this, cpiofile, cpiofile.fileobj, cpiofile.fileobj.fileobj
    {
      && cpiofile.Valid() && index <= |Walk(cpiofile.fileobj.data, 0)|
      && if cpiofile.loaded then cpiofile.members == Walk(cpiofile.fileobj.data, 0)
         else cpiofile.Taken() == index && !cpiofile.ended
    }

    /** What an iterator that is in step with its archive has still to give. */
    lemma PendingInStep()
      requires InStep() && !cpiofile.loaded
      ensures Walk(cpiofile.fileobj.data, 0)[index..] == cpiofile.Pending()
    {
    }

    /** A loaded archive is gone through by index; from any other the next member is
        taken, and it counts as loaded when there is none.  An iterator that is in
        step gives the members of the archive one after the other, even if the
        archive gets loaded between two calls. */
    method Next() returns (r: Result<Option<Info>, CpioError>)
      requires cpiofile.Valid()
      modifies this, cpiofile, cpiofile.fileobj, cpiofile.fileobj.fileobj
      ensures cpiofile.Valid() && index == old(index) + (if r.Ok? && r.value.Some? then 1 else 0)
      ensures old(cpiofile.loaded) ==>
                && r == Ok(if old(index) < |cpiofile.members| then Some(cpiofile.members[old(index)]) else None)
                && unchanged(cpiofile) && unchanged(cpiofile.fileobj) && unchanged(cpiofile.fileobj.fileobj)
      ensures !old(cpiofile.loaded) && r.Ok? ==>
                var p := old(cpiofile.Pending());
                r.value == (if p == [] then None else Some(p[0])) && cpiofile.loaded == r.value.None?
      ensures !old(cpiofile.loaded) && old(cpiofile.Ahead()) ==>
                (r.Err? <==> old(cpiofile.Pending()) == [] && WalkFails(cpiofile.fileobj.data, old(cpiofile.offset)))
      ensures r.Err? ==> !old(cpiofile.loaded) && (old(cpiofile.Ahead()) || r.error == SoughtBackwards)
      ensures !old(cpiofile.loaded) && r.Ok? && r.value.Some? ==>
                && cpiofile.Pending() == old(cpiofile.Pending())[1..] && (old(cpiofile.Ahead()) ==> cpiofile.Ahead())
                && WalkFails(cpiofile.fileobj.data, cpiofile.offset) ==
                   WalkFails(cpiofile.fileobj.data, old(cpiofile.offset))
                && cpiofile.firstmember == None && r.value.value.size < 0x1_0000_0000
                && (old(cpiofile.Ahead()) ==> cpiofile.fileobj.pos <= r.value.value.DataOffset())
                && r.value.value.DataOffset() + r.value.value.size <= cpiofile.offset
      ensures old(InStep()) && r.Ok? ==>
                var w := Walk(cpiofile.fileobj.data, 0);
                InStep() && r.value == if old(index) < |w| then Some(w[old(index)]) else None
    {
      hide Walk, WalkFails, CpioFile.Ahead, CpioFile.Pending;
      if !cpiofile.loaded {
        if InStep() { PendingInStep(); }
        r := cpiofile.Next();
        if r.Err? { return; }
        if r.value.None? {
          cpiofile.loaded := true;
          return;
        }
      } else {
        if index >= |cpiofile.members| { return Ok(None); }
        r := Ok(Some(cpiofile.members[index]));
      }
      index := index + 1;
    }
  }

  /** What the archive holds of a member's data. */
  ghost function DataOf(data: Bytes, i: Info): Option<Bytes> {
    if i.IsReg() then Some(Window(data, i.DataOffset(), i.DataOffset() + i.size)) else None
  }

  method ReadMember(f: CpioFile, i: Info) returns (content: Option<Bytes>)
    requires f.Valid() && f.firstmember == None && i.size < 0x1_0000_0000
    requires f.fileobj.pos <= i.DataOffset() && i.DataOffset() + i.size <= f.offset
    modifies f.fileobj, f.fileobj.fileobj
    ensures f.Valid() && f.Ahead() && content == DataOf(f.fileobj.data, i)
    ensures f.Pending() == old(f.Pending())
  {
    hide Walk, WalkFails;
    var x := f.ExtractFile(i);
    if x.None? { return None; }
    var whole := x.value.Read(None);
    content := Some(whole.value);
  }

  /** The members that are still to come taken in order, each read before the next
      is asked for: the stream never has to go back, and exactly the bytes of every
      regular member are read. */
  method ReadInOrder(f: CpioFile) returns (r: Result<seq<Option<Bytes>>, CpioError>)
    requires f.Valid() && f.Ahead() && !f.loaded
    modifies f, f.fileobj, f.fileobj.fileobj
    ensures r.Err? <==> WalkFails(f.fileobj.data, old(f.offset))
    ensures r.Ok? ==> |r.value| == |old(f.Pending())| &&
                      forall k :: 0 <= k < |r.value| ==> r.value[k] == DataOf(f.fileobj.data, old(f.Pending())[k])
  {
    hide *;
    ghost var w := f.Pending();
    var it := new CpioIter(f);
    var contents: seq<Option<Bytes>> := [];
    while true
      invariant fresh(it) && it.cpiofile == f && f.Valid() && f.Ahead() && !f.loaded
      invariant |contents| <= |w| && f.Pending() == w[|contents|..]
                && WalkFails(f.fileobj.data, f.offset) == WalkFails(f.fileobj.data, old(f.offset))
      invariant forall k :: 0 <= k < |contents| ==> contents[k] == DataOf(f.fileobj.data, w[k])
      decreases |w| - |contents|
    {
      var next := it.Next();
      if next.Err? { return Err(next.error); }
      if next.value.None? { break; }
      var content := ReadMember(f, next.value.value);
      contents := contents + [content];
    }
    r := Ok(contents);
  }
}
