/** Reading an archive member through the archive's stream
    (src/modules/cpiofile.py, ExFileObject). */
module ExFiles {
  import opened Common
  import opened Octets
  import opened Streams

  const NL: byte := 10
  const CR: byte := 13

  /** `sys.maxsize` */
  const MAX_SIZE: nat := 0x7fff_ffff_ffff_ffff

  // --------------------------------------------------------------------- lines

  /** The index of the first newline, or the length of the text. */
  function FindNl(s: Bytes): (k: nat)
    ensures k <= |s| && (forall i :: 0 <= i < k ==> s[i] != NL) && (k < |s| ==> s[k] == NL)
  {
    if s == [] || s[0] == NL then 0 else 1 + FindNl(s[1..])
  }

  lemma FindNlAt(s: Bytes, k: nat)
    requires k < |s| && s[k] == NL && forall i :: 0 <= i < k ==> s[i] != NL
    ensures FindNl(s) == k
  {
  }

  function StripCr(s: Bytes): Bytes {
    if s != [] && Last(s) == CR then StripCr(Front(s)) else s
  }

  /** A complete line loses the carriage returns before its newline. */
  function Stripped(piece: Bytes): Bytes {
    if piece != [] && Last(piece) == NL then StripCr(Front(piece)) + [NL] else piece
  }

  /** The text up to and with its first newline. */
  function FirstPiece(s: Bytes): Bytes {
    var k := FindNl(s);
    if k < |s| then s[..k + 1] else s
  }

  /** The text divided after each newline. */
  function Pieces(s: Bytes): seq<Bytes>
    decreases |s|
  {
    if s == [] then [] else [FirstPiece(s)] + Pieces(s[|FirstPiece(s)|..])
  }

  function StrippedAll(pieces: seq<Bytes>): (r: seq<Bytes>)
    ensures |r| == |pieces| && forall i :: 0 <= i < |r| ==> r[i] == Stripped(pieces[i])
  {
    seq(|pieces|, i requires 0 <= i < |pieces| => Stripped(pieces[i]))
  }

  /** What is read for a piece: one that is complete, and so ends in a newline (10),
      loses the carriage returns (13) just before it and nothing else; an incomplete
      one is left as it is. */
  ghost predicate LineOf(piece: Bytes, line: Bytes) {
    if piece != [] && piece[|piece| - 1] == 10 then
      exists n :: && 0 <= n < |piece| && line == piece[..n] + [10]
                  && (forall i :: n <= i < |piece| - 1 ==> piece[i] == 13)
                  && (n > 0 ==> piece[n - 1] != 13)
    else
      line == piece
  }

  lemma {:induction false} StripCrAt(s: Bytes) returns (n: nat)
    ensures n <= |s| && StripCr(s) == s[..n]
    ensures (forall i :: n <= i < |s| ==> s[i] == 13) && (n > 0 ==> s[n - 1] != 13)
  {
    n := |s|;
    if s != [] && Last(s) == CR {
      n := StripCrAt(Front(s));
      assert Front(s)[..n] == s[..n];
    }
  }

  lemma StrippedMeans(piece: Bytes)
    ensures LineOf(piece, Stripped(piece))
  {
    if piece != [] && Last(piece) == NL {
      var n := StripCrAt(Front(piece));
      assert Front(piece)[..n] == piece[..n];
    }
  }

  /** A piece ends at its only newline. */
  ghost predicate IsLine(p: Bytes) {
    p != [] && forall i :: 0 <= i < |p| - 1 ==> p[i] != NL
  }

  /** Lines of which only the last may lack its newline. */
  ghost predicate AreLines(ps: seq<Bytes>) {
    forall i :: 0 <= i < |ps| ==> IsLine(ps[i]) && (i < |ps| - 1 ==> Last(ps[i]) == NL)
  }

  lemma AreLinesCons(p: Bytes, ps: seq<Bytes>)
    requires p != []
    ensures AreLines([p] + ps) <==> IsLine(p) && AreLines(ps) && (ps != [] ==> Last(p) == NL)
    ensures Flatten([p] + ps) == p + Flatten(ps)
  {
    var all := [p] + ps;
    assert all[0] == p && all[1..] == ps;
    FlattenCons(p, ps);
    if AreLines(all) {
      forall i | 0 <= i < |ps|
        ensures IsLine(ps[i]) && (i < |ps| - 1 ==> Last(ps[i]) == NL)
      { assert ps[i] == all[i + 1]; }
    }
  }

  /** The first piece is a line; more follows only behind a newline. */
  lemma PiecesFirst(s: Bytes)
    requires s != []
    ensures var p := FirstPiece(s);
            && p != [] && IsLine(p) && s == p + s[|p|..] && Pieces(s) == [p] + Pieces(s[|p|..])
            && (s[|p|..] != [] ==> Last(p) == NL)
  {
  }

  /** The division into pieces loses nothing, and the pieces are lines. */
  lemma {:induction false} PiecesDivide(s: Bytes)
    ensures Flatten(Pieces(s)) == s && AreLines(Pieces(s))
    ensures Pieces(s) == [] <==> s == []
    decreases |s|
  {
    if s != [] {
      PiecesFirst(s);
      var p := FirstPiece(s);
      hide FirstPiece, IsLine, AreLines, Pieces;
      PiecesDivide(s[|p|..]);
      AreLinesCons(p, Pieces(s[|p|..]));
    }
  }

  lemma FirstPieceIs(p: Bytes, rest: Bytes, last: bool)
    requires IsLine(p) && (last ==> rest == []) && (!last ==> Last(p) == NL)
    ensures FirstPiece(p + rest) == p
  {
    if Last(p) == NL {
      FindNlAt(p + rest, |p| - 1);
      assert (p + rest)[..|p|] == p;
    } else {
      assert p + rest == p;
      assert FindNl(p) == |p|;
    }
  }

  /** Any division of a text into lines is this one. */
  lemma {:induction false} PiecesUnique(s: Bytes, ps: seq<Bytes>)
    requires Flatten(ps) == s && AreLines(ps)
    ensures ps == Pieces(s)
    decreases |ps|
  {
    if ps != [] {
      var p, rest := ps[0], Flatten(ps[1..]);
      assert ps == [p] + ps[1..] && IsLine(p);
      AreLinesCons(p, ps[1..]);
      FirstPieceIs(p, rest, ps[1..] == []);
      hide FirstPiece, IsLine, AreLines, Pieces;
      PiecesUnique(rest, ps[1..]);
      PiecesFirst(s);
      assert s[|p|..] == rest;
    }
  }

  lemma NoMoreLines(s: Bytes)
    requires Stripped(FirstPiece(s)) == []
    ensures s == [] && StrippedAll(Pieces(s)) == []
  {
    if s != [] { PiecesFirst(s); }
  }

  lemma StrippedNonEmpty(s: Bytes)
    ensures Stripped(FirstPiece(s)) != [] ==> s != [] && |FirstPiece(s)| > 0
  {
  }

  /** The lines of a text: the first piece's, then those of the rest. */
  lemma StrippedFirst(s: Bytes, rest: Bytes)
    requires s != [] && s == FirstPiece(s) + rest
    ensures StrippedAll(Pieces(s)) == [Stripped(FirstPiece(s))] + StrippedAll(Pieces(rest))
    ensures Stripped(FirstPiece(s)) != []
  {
    PiecesFirst(s);
    assert s[|FirstPiece(s)|..] == rest;
    hide FirstPiece, Pieces;
    assert StrippedAll([FirstPiece(s)] + Pieces(rest)) == [Stripped(FirstPiece(s))] + StrippedAll(Pieces(rest));
  }

  /** Text without a newline read before the rest of a line. */
  lemma FindNlMore(a: Bytes, b: Bytes)
    ensures FindNl(a) < |a| ==> FindNl(a + b) == FindNl(a)
  {
    if FindNl(a) < |a| { FindNlAt(a + b, FindNl(a)); }
  }

  lemma NewlineBehind(a: Bytes, b: Bytes)
    requires FindNl(a) == |a| && a <= b
    ensures FindNl(b) >= |a|
  {
    if FindNl(b) < |a| { assert a[FindNl(b)] == NL; }
  }

  lemma LastPiece(s: Bytes)
    requires FindNl(s) == |s|
    ensures FirstPiece(s) == s && Stripped(s) == s
  {
  }

  lemma CutAt(a: Bytes, b: Bytes, k: nat)
    requires k <= |a|
    ensures (a + b)[..k] == a[..k] && a + b == a[..k] + (a[k..] + b)
  {
  }

  lemma StrippedComplete(s: Bytes)
    ensures Stripped(s + [NL]) == StripCr(s) + [NL]
  {
    assert Front(s + [NL]) == s;
  }

  lemma SplitAt(a: Bytes, b: Bytes, k: nat)
    requires k < |a| && a[k] == NL
    ensures (a + b)[..k + 1] == a[..k + 1] && a + b == a[..k + 1] + (a[k + 1..] + b)
    ensures Stripped(a[..k + 1]) == StripCr(a[..k]) + [NL]
  {
    CutAt(a, b, k + 1);
    StrippedComplete(a[..k]);
    hide *;
    assert a[..k + 1] == a[..k] + [NL];
  }

  lemma FirstPieceAt(s: Bytes, k: nat)
    requires k < |s| && FindNl(s) == k
    ensures FirstPiece(s) == s[..k + 1]
  {
  }

  lemma SplitPiece(a: Bytes, b: Bytes, k: nat)
    requires k == FindNl(a) < |a|
    ensures FirstPiece(a + b) == a[..k + 1] && a + b == a[..k + 1] + (a[k + 1..] + b)
    ensures Stripped(a[..k + 1]) == StripCr(a[..k]) + [NL]
  {
    FindNlMore(a, b);
    hide *;
    SplitAt(a, b, k);
    FirstPieceAt(a + b, k);
  }

  lemma Regroup(a: Bytes, b: Bytes, c: Bytes)
    ensures (a + b) + c == a + (b + c)
  {
  }

  /** When nothing is found although something was asked for, nothing is left. */
  lemma AtEnd(data: Bytes, a: nat, b: nat, c: nat)
    requires a <= b <= c && Window(data, a, b) == [] && (a < b || b == c)
    ensures Window(data, b, c) == []
  {
  }

  method StripLine(s: Bytes) returns (line: Bytes)
    ensures line == StripCr(s)
  {
    line := s;
    while line != [] && Last(line) == CR
      invariant StripCr(line) == StripCr(s)
      decreases |line|
    {
      line := Front(line);
    }
  }

  // ------------------------------------------------------------------- members

  datatype ReadError = Closed | Backwards

  /** A member opened for reading. */
  class ExFileObject {
    const fileobj: InStream
    const offset: nat          // where the member's data begins in the archive
    const size: nat
    var pos: nat
    var linebuffer: Bytes
    var closed: bool

    constructor (fileobj: InStream, offset: nat, size: nat)
      requires fileobj.Valid() && size < 0x1_0000_0000
      ensures Valid() && this.fileobj == fileobj && this.offset == offset && this.size == size
      ensures pos == 0 && linebuffer == [] && !closed
    {
      this.fileobj, this.offset, this.size := fileobj, offset, size;
      pos, linebuffer, closed := 0, [], false;
    }

    ghost predicate Valid()
      reads this, fileobj, fileobj.fileobj
    {
      fileobj.Valid() && pos <= size < 0x1_0000_0000 && |linebuffer| <= pos
    }

    /** The position can be reached without going backwards in the archive. */
    predicate Reachable()
      reads this, fileobj
    {
      !closed && fileobj.pos <= offset + pos
    }

    /** What the archive holds of the member from `p` on. */
    ghost function From(p: nat): Bytes {
      Window(fileobj.data, offset + p, offset + size)
    }

    /** What the lines still to be read are made of. */
    ghost function Pending(): Bytes
      reads this
    {
      linebuffer + From(pos)
    }

    /** At most `n` of the bytes that follow the position; never a byte from outside the member. */
    method Read(n: Option<nat>) returns (r: Result<Bytes, ReadError>)
      requires Valid()
      modifies this`pos, fileobj, fileobj.fileobj
      ensures Valid()
      ensures r.Ok? <==> old(Reachable())
      ensures r.Err? ==>
              r.error == (if closed then Closed else Backwards) && pos == old(pos)
              && fileobj.pos == old(fileobj.pos)
      ensures var left := size - old(pos);
              var taken := if n.None? then left else Min(n.value, left);
              r.Ok? ==> && pos == old(pos) + taken && Reachable()
                        && r.value == Window(fileobj.data, offset + old(pos), offset + pos)
    {
      if closed { return Err(Closed); }
      var sought := fileobj.Seek(offset + pos);
      if sought.Err? { return Err(Backwards); }
      var bytesleft := size - pos;
      var bytestoread := if n.None? then bytesleft else Min(n.value, bytesleft);
      pos := pos + bytestoread;
      var buf := fileobj.Read(bytestoread);
      r := Ok(buf);
    }

    /** The next line: complete lines end in a newline and have lost the carriage
        returns before it; the last line may be incomplete; nothing is left when the
        line is empty.  A line that is not in the buffer yet has to be read. */
    method ReadLine() returns (r: Result<Bytes, ReadError>)
      requires Valid()
      modifies this`pos, this`linebuffer, fileobj, fileobj.fileobj
      ensures Valid() && (old(Reachable()) ==> Reachable())
      ensures r.Ok? <==> old(Reachable()) || FindNl(old(linebuffer)) < |old(linebuffer)|
      ensures r.Ok? ==> LineOf(FirstPiece(old(Pending())), r.value)
      ensures r.Ok? ==> r.value == Stripped(FirstPiece(old(Pending())))
      ensures r.Ok? ==> old(Pending()) == FirstPiece(old(Pending())) + Pending()
      ensures r.Err? ==>
              r.error == (if closed then Closed else Backwards) && pos == old(pos)
              && linebuffer == old(linebuffer)
    {
      hide FindNl, FirstPiece, Stripped, StripCr, LineOf;
      StrippedMeans(FirstPiece(Pending()));
      var nl := FindNl(linebuffer);
      if nl == |linebuffer| {
        var filled := FillLine();
        if filled.Err? { return Err(filled.error); }
        nl := filled.value;
        if nl == |linebuffer| {
          assert old(Pending()) == linebuffer;
          LastPiece(linebuffer);
          var rest := linebuffer;
          linebuffer := [];
          assert Pending() == [] && rest + Pending() == rest;
          return Ok(rest);
        }
      }
      SplitPiece(linebuffer, From(pos), nl);
      var line := StripLine(linebuffer[..nl]);
      linebuffer := linebuffer[nl + 1..];
      r := Ok(line + [NL]);
    }

    /** Chunks of at most 100 bytes are read until the buffer has a newline or the member ends. */
    method FillLine() returns (r: Result<nat, ReadError>)
      requires Valid() && FindNl(linebuffer) == |linebuffer|
      modifies this`pos, this`linebuffer, fileobj, fileobj.fileobj
      ensures Valid() && (r.Ok? <==> old(Reachable())) && (r.Ok? ==> Reachable())
      ensures r.Ok? ==> Pending() == old(Pending())
      ensures r.Ok? ==> r.value == FindNl(linebuffer) && (r.value == |linebuffer| ==> From(pos) == [])
      ensures r.Ok? && r.value < |linebuffer| ==> |linebuffer| - r.value <= 100
      ensures r.Ok? && pos < size ==> (pos - old(pos)) % 100 == 0
      ensures r.Err? ==>
              r.error == (if closed then Closed else Backwards) && pos == old(pos)
              && linebuffer == old(linebuffer)
    {
      hide FindNl, Pending, From;
      var left := MAX_SIZE - |linebuffer|;
      var nl := |linebuffer|;
      while nl == |linebuffer| && left > 0
        invariant Valid() && (Reachable() <==> old(Reachable())) && nl == FindNl(linebuffer)
        invariant Pending() == old(Pending()) && left + |linebuffer| == MAX_SIZE
        invariant !Reachable() ==> pos == old(pos) && linebuffer == old(linebuffer)
        invariant nl < |linebuffer| ==> |linebuffer| - nl <= 100
        invariant pos < size ==> (pos - old(pos)) % 100 == 0
        decreases size - pos
      {
        ghost var before := linebuffer;
        var count := ReadChunk(Min(left, 100));
        if count.Err? { return Err(count.error); }
        if count.value == 0 { break; }
        left := left - count.value;
        nl := FindNl(linebuffer);
        NewlineBehind(before, linebuffer);
      }
      r := Ok(nl);
    }

    /** Some of the member's bytes move into the line buffer: none only at its end. */
    method ReadChunk(n: nat) returns (r: Result<nat, ReadError>)
      requires Valid() && n > 0
      modifies this`pos, this`linebuffer, fileobj, fileobj.fileobj
      ensures Valid() && (r.Ok? <==> old(Reachable())) && (Reachable() <==> old(Reachable()))
      ensures Pending() == old(Pending())
      ensures r.Ok? ==> r.value <= n && |linebuffer| == old(|linebuffer|) + r.value && old(linebuffer) <= linebuffer
      ensures r.Ok? ==> pos == Min(old(pos) + n, size)
      ensures r.Ok? && r.value > 0 ==> pos > old(pos)
      ensures r.Ok? && r.value == 0 ==> linebuffer == old(linebuffer) && From(pos) == []
      ensures r.Err? ==>
              r.error == (if closed then Closed else Backwards) && pos == old(pos)
              && linebuffer == old(linebuffer)
    {
      hide Window;
      ghost var from := pos;
      var got := Read(Some(n));
      if got.Err? { return Err(got.error); }
      var chunk := got.value;
      WindowConcat(fileobj.data, offset + from, offset + pos, offset + size);
      Regroup(linebuffer, chunk, From(pos));
      if chunk == [] { AtEnd(fileobj.data, offset + from, offset + pos, offset + size); }
      linebuffer := linebuffer + chunk;
      r := Ok(|chunk|);
    }

    /** All the lines that are left: those of the text split at its newlines. */
    method ReadLines() returns (r: Result<seq<Bytes>, ReadError>)
      requires Valid()
      modifies this`pos, this`linebuffer, fileobj, fileobj.fileobj
      ensures Valid() && (old(Reachable()) ==> r.Ok?)
      ensures r.Ok? ==> r.value == StrippedAll(Pieces(old(Pending()))) && Pending() == []
      ensures r.Ok? ==> && |r.value| == |Pieces(old(Pending()))|
                        && forall i :: 0 <= i < |r.value| ==> LineOf(Pieces(old(Pending()))[i], r.value[i])
    {
      hide FirstPiece, Stripped, Pieces, StrippedAll, FindNl, LineOf;
      ghost var pieces := Pieces(Pending());
      forall i | 0 <= i < |pieces| ensures LineOf(pieces[i], Stripped(pieces[i])) { StrippedMeans(pieces[i]); }
      var lines: seq<Bytes> := [];
      while true
        invariant Valid() && (old(Reachable()) ==> Reachable())
        invariant StrippedAll(Pieces(old(Pending()))) == lines + StrippedAll(Pieces(Pending()))
        decreases |Pending()|
      {
        ghost var before := Pending();
        var line := ReadLine();
        if line.Err? { return Err(line.error); }
        if line.value == [] {
          NoMoreLines(before);
          break;
        }
        StrippedNonEmpty(before);
        StrippedFirst(before, Pending());
        lines := lines + [line.value];
      }
      r := Ok(lines);
    }

    method Tell() returns (p: nat)
      ensures p == pos
    {
      p := pos;
    }

    /** The position moves relative to the start, the position or the end, and stays inside the member. */
    method Seek(target: int, whence: nat)
      requires Valid()
      modifies this`pos, this`linebuffer
      ensures Valid() && linebuffer == []
      ensures var base := if whence == 0 then 0 else if whence == 1 then old(pos) else size;
              pos == if whence > 2 then old(pos) else if base + target < 0 then 0 else Min(base + target, size)
    {
      linebuffer := [];
      if whence == 0 {
        pos := Min(if target < 0 then 0 else target, size);
      } else if whence == 1 {
        if target < 0 {
          pos := if pos + target < 0 then 0 else pos + target;
        } else {
          pos := Min(pos + target, size);
        }
      } else if whence == 2 {
        var p := Min(size + target, size);
        pos := if p < 0 then 0 else p;
      }
    }

    method Close()
      modifies this`closed
      ensures closed
    {
      closed := true;
    }
  }
}
