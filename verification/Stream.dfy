/** Blockwise access to a file-like object that can only be read, or written,
    forward (src/modules/cpiofile.py, _Stream; archives without compression). */
module Streams {
  import opened Common
  import opened Octets

  /** What is found of `data` from `lo` to `hi`, short at its end. */
  function Window(data: Bytes, lo: nat, hi: nat): (w: Bytes)
    ensures |w| <= if lo <= hi then hi - lo else 0
  {
    if lo >= |data| || lo >= hi then [] else data[lo..Min(hi, |data|)]
  }

  lemma WindowConcat(data: Bytes, a: nat, b: nat, c: nat)
    requires a <= b <= c
    ensures Window(data, a, b) + Window(data, b, c) == Window(data, a, c)
  {
  }

  /** A file, pipe or socket: each read gives a chunk whose size is its own
      choice, and nothing at the end only. */
  class Source {
    var rest: Bytes

    constructor (data: Bytes)
      ensures rest == data
    {
      rest := data;
    }

    method Read(size: nat) returns (chunk: Bytes)
      requires size > 0
      modifies this
      ensures chunk + rest == old(rest) && |chunk| <= size
      ensures chunk == [] <==> old(rest) == []
    {
      if rest == [] { return []; }
      var most: nat := if size <= |rest| then size else |rest|;
      var k: nat :| 1 <= k <= most;
      chunk, rest := rest[..k], rest[k..];
    }
  }

  /** What a stream refuses. */
  datatype StreamError = SeekingBackwards

  lemma BlockBounds(n: nat, size: nat)
    requires size > 0
    ensures n / size * size + n % size == n
  {
  }

  lemma NextBlock(i: nat, size: nat)
    ensures (i + 1) * size == i * size + size && i * size >= 0
  {
  }

  /** A stream opened for reading. */
  class InStream {
    const fileobj: Source
    const bufsize: nat
    var buf: Bytes
    var pos: nat
    ghost const data: Bytes    // all that the stream will ever yield

    /** The buffer and the file hold exactly what follows the position; no chunk was
        fetched that was not needed. */
    ghost predicate Valid()
      reads this, fileobj
    {
      |buf| < bufsize && pos <= |data| && buf + fileobj.rest == data[pos..]
    }

    constructor (fileobj: Source, bufsize: nat)
      requires bufsize > 0
      ensures Valid() && this.fileobj == fileobj && data == fileobj.rest && pos == 0
    {
      this.fileobj, this.bufsize := fileobj, bufsize;
      buf, pos := [], 0;
      data := fileobj.rest;
    }

    /** `__read`: chunks are collected until there are enough bytes or no more. */
    method Fill(size: nat) returns (r: Bytes)
      requires Valid()
      modifies this`buf, fileobj
      ensures r == Window(data, pos, pos + size)
      ensures r + (buf + fileobj.rest) == data[pos..] && |buf| < bufsize
    {
      var c, t := |buf|, buf;
      while c < size
        invariant c == |t| < size + bufsize && t + fileobj.rest == data[pos..]
        decreases |fileobj.rest|
      {
        var chunk := fileobj.Read(bufsize);
        if chunk == [] { break; }
        t, c := t + chunk, c + |chunk|;
      }
      assert data[pos..] == t + fileobj.rest;
      r, buf := t[..Min(size, |t|)], t[Min(size, |t|)..];
    }

    /** `read(size)`: the next `size` bytes, fewer only at the end. */
    method Read(size: nat) returns (r: Bytes)
      requires Valid()
      modifies this`buf, this`pos, fileobj
      ensures Valid() && r == Window(data, old(pos), old(pos) + size) && pos == old(pos) + |r|
    {
      r := Fill(size);
      ghost var rest := data[pos..];
      pos := pos + |r|;
      assert buf + fileobj.rest == rest[|r|..];
    }

    /** `read()`: everything that is left. */
    method ReadAll() returns (r: Bytes)
      requires Valid()
      modifies this`buf, this`pos, fileobj
      ensures Valid() && r == data[old(pos)..] && pos == |data|
    {
      r := [];
      while true
        invariant Valid() && old(pos) <= pos && r == data[old(pos)..pos]
        decreases |data| - pos
      {
        var chunk := Read(bufsize);
        if chunk == [] { break; }
        r := r + chunk;
      }
    }

    method Tell() returns (p: nat)
      ensures p == pos
    {
      p := pos;
    }

    /** Forward to `target`, or to the end; never backward. */
    method Seek(target: int) returns (r: Result<nat, StreamError>)
      requires Valid()
      modifies this`buf, this`pos, fileobj
      ensures Valid()
      ensures r.Err? <==> target < old(pos)
      ensures r.Err? ==> pos == old(pos)
      ensures r.Ok? ==> r.value == pos == if target <= |data| then target else |data|
    {
      if target < pos { return Err(SeekingBackwards); }
      var blocks, remainder := (target - pos) / bufsize, (target - pos) % bufsize;
      ghost var start := pos;
      BlockBounds(target - pos, bufsize);
      for i := 0 to blocks
        invariant Valid() && pos == Min(start + i * bufsize, |data|)
      {
        NextBlock(i, bufsize);
        var skipped := Read(bufsize);
      }
      var skipped := Read(remainder);
      r := Ok(pos);
    }
  }

  // ------------------------------------------------------------------- writing

  lemma FlattenSnoc(blocks: seq<Bytes>, b: Bytes)
    ensures Flatten(blocks + [b]) == Flatten(blocks) + b
  {
    assert Front(blocks + [b]) == blocks;
  }

  /** Every block full but the last, which is not empty either. */
  ghost predicate ClosedBlocks(blocks: seq<Bytes>, size: nat) {
    forall i :: 0 <= i < |blocks| ==> if i < |blocks| - 1 then |blocks[i]| == size else 0 < |blocks[i]| <= size
  }

  /** A stream opened for writing; `blocks` are the writes made to the file so far. */
  class OutStream {
    const bufsize: nat
    var blocks: seq<Bytes>
    var buf: Bytes
    var pos: nat
    var closed: bool
    ghost var written: Bytes    // all that was passed to Write

    /** Until the stream is closed every block is full, and is written only when more
        follows; nothing is lost or reordered. */
    ghost predicate Valid()
      reads this
    {
      && bufsize > 0 && pos == |written| && |buf| <= bufsize
      && Flatten(blocks) + buf == written
      && (!closed ==> forall i :: 0 <= i < |blocks| ==> |blocks[i]| == bufsize)
      && (!closed && buf == [] ==> written == [])
      && (closed ==> buf == [] && ClosedBlocks(blocks, bufsize))
    }

    constructor (bufsize: nat)
      requires bufsize > 0
      ensures Valid() && !closed && written == [] && blocks == []
    {
      this.bufsize := bufsize;
      blocks, buf, pos, closed := [], [], 0, false;
      written := [];
    }

    method Write(s: Bytes)
      requires Valid() && !closed
      modifies this
      ensures Valid() && !closed && written == old(written) + s
      ensures old(blocks) <= blocks
    {
      pos := pos + |s|;
      buf := buf + s;
      written := written + s;
      while |buf| > bufsize
        invariant bufsize > 0 && pos == |written| && written == old(written) + s && !closed
        invariant Flatten(blocks) + buf == written
        invariant forall i :: 0 <= i < |blocks| ==> |blocks[i]| == bufsize
        invariant old(blocks) <= blocks && (buf == [] ==> written == [])
        decreases |buf|
      {
        FlattenSnoc(blocks, buf[..bufsize]);
        blocks, buf := blocks + [buf[..bufsize]], buf[bufsize..];
      }
    }

    /** The rest of the buffer is the last block; closing again does nothing. */
    method Close()
      requires Valid()
      modifies this
      ensures Valid() && closed && written == old(written) && Flatten(blocks) == written
      ensures old(closed) ==> blocks == old(blocks)
    {
      if closed { return; }
      if buf != [] {
        FlattenSnoc(blocks, buf);
        blocks, buf := blocks + [buf], [];
      }
      closed := true;
    }
  }

  lemma {:induction false} FullBlocks(a: seq<Bytes>, size: nat)
    requires size > 0 && a != [] && ClosedBlocks(a, size)
    ensures |Flatten(Front(a))| == (|a| - 1) * size && ClosedBlocks(Front(a), size)
  {
    if |a| > 1 {
      forall i | 0 <= i < |a| - 1 ensures |Front(a)[i]| == size { assert Front(a)[i] == a[i]; }
      FullBlocks(Front(a), size);
      assert |Last(Front(a))| == size;
      NextBlock(|a| - 2, size);
    }
  }

  lemma BlockCount(a: seq<Bytes>, size: nat)
    requires size > 0 && ClosedBlocks(a, size)
    ensures a == [] <==> Flatten(a) == []
    ensures a != [] ==> (|a| - 1) * size < |Flatten(a)| <= |a| * size
  {
    if a != [] {
      FullBlocks(a, size);
      NextBlock(|a| - 1, size);
    }
  }

  lemma {:induction false} Monotone(m: nat, n: nat, size: nat)
    requires m <= n
    ensures m * size <= n * size
  {
    if m < n {
      Monotone(m, n - 1, size);
      NextBlock(n - 1, size);
    }
  }

  lemma CountsEqual(a: seq<Bytes>, b: seq<Bytes>, size: nat)
    requires a != [] && b != [] && (|a| - 1) * size < |b| * size && (|b| - 1) * size < |a| * size
    ensures |a| == |b|
  {
    if |a| < |b| { Monotone(|a|, |b| - 1, size); }
    if |b| < |a| { Monotone(|b|, |a| - 1, size); }
  }

  /** The blocks of a closed stream are determined by what was written, however
      it was divided into writes. */
  lemma {:induction false} BlocksUnique(a: seq<Bytes>, b: seq<Bytes>, size: nat)
    requires size > 0 && ClosedBlocks(a, size) && ClosedBlocks(b, size) && Flatten(a) == Flatten(b)
    ensures a == b
  {
    BlockCount(a, size);
    BlockCount(b, size);
    if a != [] && b != [] {
      CountsEqual(a, b, size);
      var x, y := Flatten(Front(a)), Flatten(Front(b));
      FullBlocks(a, size);
      FullBlocks(b, size);
      assert x == Flatten(a)[..|x|] && y == Flatten(b)[..|y|];
      assert Last(a) == Flatten(a)[|x|..] && Last(b) == Flatten(b)[|y|..];
      BlocksUnique(Front(a), Front(b), size);
      assert a == Front(a) + [Last(a)] && b == Front(b) + [Last(b)];
    }
  }
}
