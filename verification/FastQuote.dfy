/** Percent-encoding of byte strings into a C buffer (src/modules/_misc.c, fast_quote). */
module FastQuotes {
  import opened Common
  import opened Octets

  // ------------------------------------------------------------- the specification

  /** The unreserved characters of section 2.3 of RFC 3986, and the slash. */
  predicate IsSafe(b: byte) {
    || 48 <= b < 58 || 65 <= b < 91 || 97 <= b < 123    // digits and letters
    || b == 45 || b == 46 || b == 95 || b == 126        // - . _ ~
    || b == 47
  }

  const PERCENT: byte := 37

  /** Upper-case hexadecimal digits. */
  function HexDigit(n: nat): byte
    requires n < 16
  {
    if n < 10 then (48 + n) as byte else (55 + n) as byte
  }

  function HexValue(c: byte): Option<nat> {
    if 48 <= c < 58 then Some(c as nat - 48)
    else if 65 <= c < 71 then Some(c as nat - 55)
    else if 97 <= c < 103 then Some(c as nat - 87)
    else None
  }

  /** A byte as section 2.1 of RFC 3986 has it. */
  function Encoded(b: byte): (r: Bytes)
    ensures |r| == 1 || |r| == 3
  {
    if IsSafe(b) then [b] else [PERCENT, HexDigit(b as nat / 16), HexDigit(b as nat % 16)]
  }

  /** The letters, digits and marks that stay as they are, by name; any other byte is
      a percent sign and two digits of sixteen. */
  lemma EncodedMeans(b: byte)
    ensures var c, hex := b as int as char, "0123456789ABCDEF";
            var safe := 'A' <= c <= 'Z' || 'a' <= c <= 'z' || '0' <= c <= '9' || c in "/-._~";
            && (safe ==> Encoded(b) == [b])
            && (!safe ==> |Encoded(b)| == 3 && Encoded(b)[0] as int as char == '%'
                          && Encoded(b)[1] as int as char == hex[b as int / 16]
                          && Encoded(b)[2] as int as char == hex[b as int % 16])
  {
  }

  function Quote(s: Bytes): Bytes {
    if s == [] then [] else Quote(Front(s)) + Encoded(Last(s))
  }

  function Prepend(b: byte, r: Option<Bytes>): Option<Bytes> {
    if r.None? then None else Some([b] + r.value)
  }

  /** Decoding, by section 2.1 of RFC 3986: the inverse of any percent-encoding. */
  function Unquote(s: Bytes): Option<Bytes> {
    if s == [] then Some([])
    else if s[0] != PERCENT then Prepend(s[0], Unquote(s[1..]))
    else if |s| < 3 || HexValue(s[1]).None? || HexValue(s[2]).None? then None
    else Prepend((HexValue(s[1]).value * 16 + HexValue(s[2]).value) as byte, Unquote(s[3..]))
  }

  lemma UnquoteOne(b: byte, rest: Bytes)
    ensures Unquote(Encoded(b) + rest) == Prepend(b, Unquote(rest))
  {
    var s := Encoded(b) + rest;
    if IsSafe(b) {
      assert s[1..] == rest;
    } else {
      assert s[3..] == rest;
      assert HexValue(HexDigit(b as nat / 16)) == Some(b as nat / 16);
      assert HexValue(HexDigit(b as nat % 16)) == Some(b as nat % 16);
    }
  }

  lemma Regroup(a: Bytes, b: Bytes, c: Bytes)
    ensures (a + b) + c == a + (b + c)
  {
  }

  lemma PrependSome(b: byte, r: Bytes)
    ensures Prepend(b, Some(r)) == Some([b] + r)
  {
  }

  lemma WholeAgain(s: Bytes)
    requires s != []
    ensures s == Front(s) + [Last(s)]
  {
  }

  lemma {:induction false} UnquoteBefore(s: Bytes, rest: Bytes)
    requires Unquote(rest).Some?
    ensures Unquote(Quote(s) + rest) == Some(s + Unquote(rest).value)
  {
    if s == [] {
      assert Quote(s) + rest == rest;
      assert s + Unquote(rest).value == Unquote(rest).value;
    } else {
      var f, b := Front(s), Last(s);
      UnquoteOne(b, rest);
      assert Quote(s) == Quote(f) + Encoded(b);
      var r := Unquote(rest).value;
      hide *;
      UnquoteBefore(f, Encoded(b) + rest);
      Regroup(Quote(f), Encoded(b), rest);
      Regroup(f, [b], r);
      PrependSome(b, r);
      WholeAgain(s);
    }
  }

  /** Decoding a quoted text gives the text back. */
  lemma UnquoteQuote(s: Bytes)
    ensures Unquote(Quote(s)) == Some(s)
  {
    UnquoteBefore(s, []);
    assert Quote(s) + [] == Quote(s) && s + [] == s;
  }

  lemma EncodedSafe(b: byte)
    ensures forall i :: 0 <= i < |Encoded(b)| ==>
            (IsSafe(Encoded(b)[i]) || Encoded(b)[i] == PERCENT) && Encoded(b)[i] != 0
  {
  }

  /** Only safe characters and percent signs come out: in particular no zero byte. */
  lemma {:induction false} QuoteSafe(s: Bytes)
    ensures forall i :: 0 <= i < |Quote(s)| ==> IsSafe(Quote(s)[i]) || Quote(s)[i] == PERCENT
    ensures forall i :: 0 <= i < |Quote(s)| ==> Quote(s)[i] != 0
    ensures |s| <= |Quote(s)| <= 3 * |s|
  {
    if s != [] {
      QuoteSafe(Front(s));
      EncodedSafe(Last(s));
      hide Encoded, IsSafe;
    }
  }

  lemma QuoteMore(s: Bytes, i: nat)
    requires i < |s|
    ensures Quote(s[..i + 1]) == Quote(s[..i]) + Encoded(s[i])
  {
    assert Front(s[..i + 1]) == s[..i];
  }

  // --------------------------------------------------------------- the two C paths

  /** An entry of `quote_map`: three characters, or one with zeros behind it. */
  function QuoteMap(b: byte): (byte, byte, byte) {
    if IsSafe(b) then (b, 0, 0) else (PERCENT, HexDigit(b as nat / 16), HexDigit(b as nat % 16))
  }

  /** A C string: what comes before the first zero. */
  function CString(buffer: Bytes): Bytes {
    if buffer == [] || buffer[0] == 0 then [] else [buffer[0]] + CString(buffer[1..])
  }

  lemma {:induction false} CStringIs(s: Bytes, rest: Bytes)
    requires forall i :: 0 <= i < |s| ==> s[i] != 0
    ensures CString(s + [0] + rest) == s
  {
    var b := s + [0] + rest;
    if s == [] {
      assert b[0] == 0;
    } else {
      assert b[1..] == s[1..] + [0] + rest;
      CStringIs(s[1..], rest);
    }
  }

  const MAX_STACK_QUOTE_SIZE: nat := 1024

  const INT_MAX: int := 0x7fff_ffff

  /** The longest text whose buffer stays within an `int` whatever its bytes are. */
  const MAX_SIZE: nat := 636_291_451

  /** Half as large again, as `*= 1.5` makes an integer. */
  function Enlarged(size: nat): nat {
    size * 3 / 2
  }

  /** The size of the buffer on the heap once `i` bytes were quoted into it: it is
      enlarged before a byte for which, with the final zero, room might be short. */
  function BufferSize(s: Bytes, i: nat): nat
    requires i <= |s|
  {
    if i == 0 then Enlarged(|s|)
    else
      var size := BufferSize(s, i - 1);
      if |Quote(s[..i - 1])| >= size - 4 then Enlarged(size) else size
  }

  /** A buffer on the heap, if there is one, never has a size that is more than an `int` holds. */
  ghost predicate FitsInt(s: Bytes) {
    |s| > MAX_STACK_QUOTE_SIZE ==> forall i :: 0 <= i <= |s| ==> BufferSize(s, i) <= INT_MAX
  }

  lemma NothingQuoted(s: Bytes)
    ensures s[..0] == [] && Quote([]) == []
  {
  }

  lemma {:induction false} QuoteLength(s: Bytes, i: nat)
    requires i <= |s|
    ensures |Quote(s[..i])| <= 3 * i
    ensures (forall k :: 0 <= k < i ==> !IsSafe(s[k])) ==> |Quote(s[..i])| == 3 * i
  {
    if i > 0 {
      QuoteLength(s, i - 1);
      QuoteMore(s, i - 1);
      hide Quote;
    } else {
      NothingQuoted(s);
    }
  }

  /** The buffer is enlarged twice at most, and has room for one more byte and the final zero. */
  lemma {:induction false} SizeIs(s: Bytes, i: nat)
    requires i <= |s| && |s| > MAX_STACK_QUOTE_SIZE
    ensures var first := Enlarged(|s|);
            BufferSize(s, i) in {first, Enlarged(first), Enlarged(Enlarged(first))}
    ensures i > 0 ==> BufferSize(s, i) - 4 > |Quote(s[..i - 1])|
    ensures |Quote(s[..i])| + 2 <= BufferSize(s, i)
  {
    hide Quote, Encoded;
    if i > 0 {
      SizeIs(s, i - 1);
      QuoteLength(s, i - 1);
      QuoteMore(s, i - 1);
    } else {
      NothingQuoted(s);
    }
  }

  /** Every text of that length fits, and of the longer ones none without a safe byte does. */
  lemma MaxSizeExact(s: Bytes)
    ensures |s| <= MAX_SIZE ==> FitsInt(s)
    ensures (forall k :: 0 <= k < |s| ==> !IsSafe(s[k])) ==> (FitsInt(s) <==> |s| <= MAX_SIZE)
  {
    hide Quote, IsSafe;
    if |s| > MAX_STACK_QUOTE_SIZE {
      forall i | 0 <= i <= |s| ensures |s| <= MAX_SIZE ==> BufferSize(s, i) <= INT_MAX { SizeIs(s, i); }
      SizeIs(s, |s|);
      QuoteLength(s, |s| - 1);
    }
  }

  /** One byte quoted into the buffer at `j`. */
  method PutQuoted(buffer: array<byte>, j: nat, b: byte) returns (next: nat)
    requires j + |Encoded(b)| <= buffer.Length
    modifies buffer
    ensures next == j + |Encoded(b)| && buffer[..next] == old(buffer[..j]) + Encoded(b)
  {
    var val := QuoteMap(b);
    next := j;
    buffer[next] := val.0;
    next := next + 1;
    if val.1 != 0 {
      buffer[next] := val.1;
      next := next + 1;
      buffer[next] := val.2;
      next := next + 1;
    }
  }

  method Terminated(buffer: array<byte>, j: nat, ghost s: Bytes) returns (r: Bytes)
    requires j < buffer.Length && buffer[..j] == Quote(s)
    modifies buffer
    ensures r == Quote(s)
  {
    hide Quote;
    buffer[j] := 0;
    QuoteSafe(s);
    CStringIs(Quote(s), buffer[j + 1..]);
    assert buffer[..] == buffer[..j] + [0] + buffer[j + 1..];
    r := CString(buffer[..]);
  }

  /** Short strings: a buffer with room for the worst case. */
  method QuoteOnStack(s: Bytes) returns (r: Bytes)
    requires |s| <= MAX_STACK_QUOTE_SIZE
    ensures r == Quote(s)
  {
    hide Quote, Encoded;
    var buffer := new byte[MAX_STACK_QUOTE_SIZE * 3 + 1];
    var j := 0;
    NothingQuoted(s);
    for i := 0 to |s|
      invariant 0 <= j <= 3 * i && buffer[..j] == Quote(s[..i])
    {
      QuoteMore(s, i);
      j := PutQuoted(buffer, j, s[i]);
    }
    assert s[..|s|] == s;
    r := Terminated(buffer, j, s);
  }

  /** `realloc` to a larger size. */
  method Reallocate(buffer: array<byte>, size: nat) returns (larger: array<byte>)
    requires size >= buffer.Length
    ensures fresh(larger) && larger.Length == size && larger[..buffer.Length] == buffer[..]
  {
    larger := new byte[size];
    forall k | 0 <= k < buffer.Length { larger[k] := buffer[k]; }
  }

  /** Long strings: a buffer of one and a half times the length, made half as large
      again whenever it is nearly full.  No write is outside of it. */
  method QuoteOnHeap(s: Bytes) returns (r: Bytes)
    requires MAX_STACK_QUOTE_SIZE < |s| && FitsInt(s)
    ensures r == Quote(s)
  {
    hide Quote, Encoded;
    var size := Enlarged(|s|);
    var buffer := new byte[size];
    var j: nat := 0;
    NothingQuoted(s);
    SizeIs(s, 0);
    for i := 0 to |s|
      invariant buffer.Length == size == BufferSize(s, i) <= INT_MAX && fresh(buffer)
      invariant j == |Quote(s[..i])| && j < size && buffer[..j] == Quote(s[..i])
    {
      SizeIs(s, i + 1);
      if j >= size - 4 {
        size := Enlarged(size);
        buffer := Reallocate(buffer, size);
      }
      QuoteMore(s, i);
      j := PutQuoted(buffer, j, s[i]);
    }
    assert s[..|s|] == s;
    SizeIs(s, |s|);
    r := Terminated(buffer, j, s);
  }

  /** Both paths give the percent-encoding. */
  method FastQuote(s: Bytes) returns (r: Bytes)
    requires FitsInt(s)
    ensures r == Quote(s)
  {
    if |s| <= MAX_STACK_QUOTE_SIZE {
      r := QuoteOnStack(s);
    } else {
      r := QuoteOnHeap(s);
    }
  }
}
