/** The headers of archive members (src/modules/cpiofile.py, CpioInfo.frombuf). */
module CpioHeaders {
  import opened Common
  import opened Octets
  import opened Streams

  // ---------------------------------------------------------------------- text

  function HexDigit(n: nat): byte
    requires n < 16
  {
    if n < 10 then (48 + n) as byte else (87 + n) as byte
  }

  function HexValue(c: byte): Option<nat> {
    if 48 <= c < 58 then Some(c as nat - 48)
    else if 97 <= c < 103 then Some(c as nat - 87)
    else if 65 <= c < 71 then Some(c as nat - 55)
    else None
  }

  /** `int(s, 16)` of a text of hexadecimal digits; None for its ValueError. */
  function ParseHex(s: Bytes): Option<nat> {
    if s == [] || HexValue(Last(s)).None? then None
    else if |s| == 1 then HexValue(s[0])
    else match ParseHex(Front(s))
         case None => None
         case Some(n) => Some(n * 16 + HexValue(Last(s)).value)
  }

  function Hex(n: nat, w: nat): (r: Bytes)
    ensures |r| == w
  {
    if w == 0 then [] else Hex(n / 16, w - 1) + [HexDigit(n % 16)]
  }

  function Pow16(w: nat): (r: nat)
    ensures r > 0
  {
    if w == 0 then 1 else 16 * Pow16(w - 1)
  }

  lemma {:induction false} ParseHexOf(n: nat, w: nat)
    requires w > 0 && n < Pow16(w)
    ensures ParseHex(Hex(n, w)) == Some(n)
  {
    var s := Hex(n, w);
    assert Front(s) == Hex(n / 16, w - 1) && Last(s) == HexDigit(n % 16);
    if w > 1 {
      ParseHexOf(n / 16, w - 1);
    } else {
      assert s[0] == Last(s);
    }
  }

  ghost predicate IsDigit(c: byte) {
    c as int as char in "0123456789abcdefABCDEF"
  }

  lemma DigitIs(c: byte)
    ensures HexValue(c).Some? <==> IsDigit(c)
  {
  }

  /** A text is read as a number when it has digits and nothing else; capitals may be used. */
  lemma {:induction false} ParseHexDigits(s: Bytes)
    ensures ParseHex(s).Some? <==> s != [] && forall i :: 0 <= i < |s| ==> IsDigit(s[i])
  {
    hide HexValue, IsDigit;
    if s != [] {
      DigitIs(Last(s));
      if |s| > 1 {
        ParseHexDigits(Front(s));
        assert forall i :: 0 <= i < |s| - 1 ==> s[i] == Front(s)[i];
      }
    }
  }

  function Capitals(s: Bytes): (r: Bytes)
    ensures |r| == |s|
  {
    seq(|s|, i requires 0 <= i < |s| => if 97 <= s[i] <= 102 then s[i] - 32 else s[i])
  }

  lemma {:induction false} ParseHexCapitals(s: Bytes)
    ensures ParseHex(Capitals(s)) == ParseHex(s)
  {
    if s != [] {
      assert Front(Capitals(s)) == Capitals(Front(s));
      if |s| > 1 { ParseHexCapitals(Front(s)); }
    }
  }

  lemma {:induction false} ParseHexBound(s: Bytes)
    ensures ParseHex(s).Some? ==> ParseHex(s).value < Pow16(|s|)
  {
    if s != [] && HexValue(Last(s)).Some? {
      if |s| > 1 { ParseHexBound(Front(s)); } else { assert Pow16(1) == 16; }
    }
  }

  // -------------------------------------------------------------------- headers

  const CMS_ASC: Bytes := [48, 55, 48, 55, 48, 49]     // "070701"
  const CMS_CHR: Bytes := [48, 55, 48, 55, 48, 55]     // "070707"
  const CMS_CRC: Bytes := [48, 55, 48, 55, 48, 50]     // "070702"
  const CMN_BIN: nat := 0x71c7                         // octal 070707

  /** The next multiple of `unit`. */
  function AlignUp(n: nat, unit: nat): (r: nat)
    ensures n <= r
  {
    if unit == 0 || n % unit == 0 then n else n + (unit - n % unit)
  }

  /** What the header of a member says. */
  datatype Info = Info(name: Bytes, mode: nat, mtime: int, size: nat, hdrsize: nat, padding: nat, offset: nat) {
    /** Where the member's data begins. */
    function DataOffset(): nat {
      offset + hdrsize
    }

    /** Where the next header is looked for. */
    function Next(): nat {
      AlignUp(offset + hdrsize + size, padding)
    }

    predicate IsReg() {
      mode / 4096 % 16 == 8
    }
  }

  lemma UniqueRemainder(n: nat, q: nat, r: nat, unit: nat)
    requires unit > 0 && n == q * unit + r && r < unit
    ensures n % unit == r
  {
    var d, m := n / unit, n % unit;
    assert n == d * unit + m;
    if d < q { Monotone(d + 1, q, unit); NextBlock(d, unit); }
    if q < d { Monotone(q + 1, d, unit); NextBlock(q, unit); }
  }

  lemma AddUnit(n: nat, unit: nat)
    requires unit > 0
    ensures (n + unit) % unit == n % unit
  {
    assert (n + unit) == (n / unit + 1) * unit + n % unit;
    UniqueRemainder(n + unit, n / unit + 1, n % unit, unit);
  }

  lemma {:induction false} MultipleOf(q: nat, unit: nat)
    requires unit > 0
    ensures q * unit % unit == 0
  {
    if q > 0 {
      MultipleOf(q - 1, unit);
      assert q * unit == (q - 1) * unit + unit;
      AddUnit((q - 1) * unit, unit);
    }
  }

  lemma AlignUpIs(n: nat, unit: nat)
    requires unit > 0
    ensures AlignUp(n, unit) % unit == 0 && AlignUp(n, unit) < n + unit
  {
    if n % unit != 0 {
      var q := n / unit;
      assert n + (unit - n % unit) == (q + 1) * unit;
      MultipleOf(q + 1, unit);
    }
  }

  datatype HeaderError =
    | Invalid      // ValueError: not a header, or one of an unsupported kind
    | Truncated    // struct.error: too few bytes for a binary header
    | Negative     // a negative size in a binary header

  /** Two bytes of a binary header, least significant first. */
  function U16(b: Bytes, i: nat): nat
    requires i + 2 <= |b|
  {
    b[i] as nat + 256 * b[i + 1] as nat
  }

  function S16(b: Bytes, i: nat): int
    requires i + 2 <= |b|
  {
    if U16(b, i) < 0x8000 then U16(b, i) else U16(b, i) - 0x1_0000
  }

  function S32(b: Bytes, i: nat): int
    requires i + 4 <= |b|
  {
    U16(b, i) + 0x1_0000 * S16(b, i + 2)
  }

  function NameIn(data: Bytes, lo: nat, namesize: nat): Bytes {
    Window(data, lo, if namesize == 0 then lo else lo + namesize - 1)
  }

  /** Padded to the nearest block of four bytes. */
  function Padded(h: nat): nat
    requires h > 0
  {
    h + 4 - (h - 1) % 4 - 1
  }

  lemma PaddedIs(h: nat)
    requires h > 0
    ensures Padded(h) % 4 == 0 && h <= Padded(h) < h + 4
  {
  }

  /** A header read so far: all but the name, and the size of the name. */
  datatype Fixed = Fixed(info: Info, namesize: nat)

  /** A header in hexadecimal text, padded to four bytes. */
  function AscHeader(buf: Bytes): Result<Fixed, HeaderError> {
    var mode, uid, gid := ParseHex(Window(buf, 14, 22)), ParseHex(Window(buf, 22, 30)), ParseHex(Window(buf, 30, 38));
    var mtime, size := ParseHex(Window(buf, 46, 54)), ParseHex(Window(buf, 54, 62));
    var major, minor := ParseHex(Window(buf, 62, 70)), ParseHex(Window(buf, 70, 78));
    var namesize, chksum := ParseHex(Window(buf, 94, 102)), ParseHex(Window(buf, 102, 110));
    if mode.None? || uid.None? || gid.None? || mtime.None? || size.None? || major.None? || minor.None? || namesize.None?
      || chksum.None?
    then Err(Invalid)
    else Ok(Fixed(Info([], mode.value, mtime.value, size.value, Padded(110 + namesize.value), 4, 0), namesize.value))
  }

  /** A binary header, padded to two bytes. */
  function BinHeader(buf: Bytes): Result<Fixed, HeaderError> {
    if |buf| < 26 then Err(Truncated)
    else
      var namesize, size := S16(buf, 20), S32(buf, 22);
      if namesize < 0 || size < 0 then Err(Negative)
      else Ok(Fixed(Info([], U16(buf, 6), S32(buf, 16), size, 26 + namesize + namesize % 2, 2, 0), namesize))
  }

  /** The name that follows `length` bytes of a header; its size counts a final NUL. */
  function Named(r: Result<Fixed, HeaderError>, data: Bytes, o: nat, length: nat): Result<Info, HeaderError> {
    match r
    case Err(e) => Err(e)
    case Ok(h) => Ok(h.info.(name := NameIn(data, o + length, h.namesize), offset := o))
  }

  function ParseAsc(data: Bytes, o: nat): Result<Info, HeaderError> {
    Named(AscHeader(Window(data, o, o + 110)), data, o, 110)
  }

  function ParseBin(data: Bytes, o: nat): Result<Info, HeaderError> {
    Named(BinHeader(Window(data, o, o + 26)), data, o, 26)
  }

  /** The header at `o`; None at the end of the archive. */
  function ParseAt(data: Bytes, o: nat): Result<Option<Info>, HeaderError> {
    var magic := Window(data, o, o + 6);
    if magic == [] then Ok(None)
    else
      var r := if magic == CMS_ASC then ParseAsc(data, o)
               else if magic == CMS_CHR || magic == CMS_CRC then Err(Invalid)
               else if |magic| < 2 then Err(Truncated)
               else if U16(magic, 0) == CMN_BIN then ParseBin(data, o)
               else Err(Invalid);
      match r
      case Ok(i) => Ok(Some(i))
      case Err(e) => Err(e)
  }

  lemma NeverTruncated(buf: Bytes)
    ensures AscHeader(buf) != Err(Truncated)
  {
    hide ParseHex, Window;
  }

  /** A header is accepted only behind "070701" or the number 070707 (octal) in two bytes. */
  lemma AcceptedMagic(data: Bytes, o: nat)
    requires ParseAt(data, o).Ok? && ParseAt(data, o).value.Some?
    ensures Window(data, o, o + 6) == [48, 55, 48, 55, 48, 49] || Window(data, o, o + 2) == [0xc7, 0x71]
  {
    hide ParseAsc, ParseBin;
    var magic := Window(data, o, o + 6);
    if magic != CMS_ASC { assert Window(data, o, o + 2) == magic[..2] == [magic[0], magic[1]]; }
  }

  lemma Magic(b: Bytes)
    ensures |b| >= 2 ==> (U16(b, 0) == CMN_BIN <==> b[0] == 0xc7 && b[1] == 0x71)
  {
  }

  lemma BinTruncated(buf: Bytes)
    ensures BinHeader(buf) == Err(Truncated) <==> |buf| < 26
  {
    hide U16, S16, S32;
  }

  /** Where the archive ends there is no header; one is truncated when only one byte is
      left, or fewer than 26 that begin as a binary header does. */
  lemma WhenTruncated(data: Bytes, o: nat)
    ensures ParseAt(data, o) == Ok(None) <==> o >= |data|
    ensures ParseAt(data, o) == Err(Truncated) <==>
            o + 1 == |data| || (o + 2 <= |data| < o + 26 && data[o] == 0xc7 && data[o + 1] == 0x71)
  {
    NeverTruncated(Window(data, o, o + 110));
    hide AscHeader, NameIn, BinHeader;
    var magic, start := Window(data, o, o + 6), Window(data, o, o + 26);
    assert |magic| >= 1 ==> magic[0] == data[o];
    assert |magic| >= 2 ==> magic[1] == data[o + 1];
    assert |start| < 26 <==> |data| < o + 26;
    BinTruncated(start);
    hide Window, U16;
    assert |magic| >= 2 ==> (U16(magic, 0) == CMN_BIN <==> magic[0] == 0xc7 && magic[1] == 0x71) by { Magic(magic); }
  }

  /** What holds of every header that is accepted. */
  predicate Sane(i: Info, o: nat) {
    && i.offset == o && i.hdrsize >= 26 && i.padding in {2, 4} && i.hdrsize % i.padding == 0
    && i.size < 0x1_0000_0000
  }

  lemma EightDigits()
    ensures Pow16(8) == 0x1_0000_0000
  {
    assert Pow16(2) == 256;
    assert Pow16(4) == 0x1_0000;
    assert Pow16(6) == 0x100_0000;
  }

  lemma {:induction false} PowMonotone(v: nat, w: nat)
    requires v <= w
    ensures Pow16(v) <= Pow16(w)
  {
    if v < w { PowMonotone(v, w - 1); }
  }

  lemma AscSane(data: Bytes, o: nat)
    requires ParseAsc(data, o).Ok?
    ensures Sane(ParseAsc(data, o).value, o)
  {
    hide ParseHex, Pow16, NameIn, Padded;
    var buf := Window(data, o, o + 110);
    var w := Window(buf, 54, 62);
    assert |w| <= 8;
    hide Window;
    ParseHexBound(w);
    PowMonotone(|w|, 8);
    EightDigits();
    PaddedIs(110 + ParseHex(Window(buf, 94, 102)).value);
  }

  lemma BinSane(data: Bytes, o: nat)
    requires ParseBin(data, o).Ok?
    ensures Sane(ParseBin(data, o).value, o)
  {
    hide Window, NameIn;
  }

  lemma SaneNext(i: Info, o: nat)
    requires Sane(i, o)
    ensures i.offset == o && i.Next() >= i.DataOffset() + i.size > o
  {
  }

  /** Sizes fit 32 bits, headers are padded, and the next header is behind this one and its data. */
  lemma ParsedSane(data: Bytes, o: nat)
    requires ParseAt(data, o).Ok? && ParseAt(data, o).value.Some?
    ensures var i := ParseAt(data, o).value.value;
            i.offset == o < |data| && Sane(i, o) && i.Next() >= i.DataOffset() + i.size > o
  {
    hide ParseAsc, ParseBin, Sane;
    var i := ParseAt(data, o).value.value;
    if ParseAsc(data, o).Ok? { AscSane(data, o); }
    if ParseBin(data, o).Ok? { BinSane(data, o); }
    assert Sane(i, o);
    SaneNext(i, o);
  }
}
