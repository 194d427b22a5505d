/** The Bit Stream tooling of the Inspector (tabs/inspector_tab.py), lifted
    out of the Qt widgets: cleaning the editor text, MSB-first packing of
    bits into bytes with zero padding (hex view and .bin export), the hex
    table's layout, hex search patterns, pattern search and the alternating
    byte highlighter. Bit strings are `string`s of '0' and '1'. */
module BitStream {
  import opened Wrappers
  import opened Arith
  import opened LineDecoder

  // ---------------------------------------------------------- text cleanup

  /** The text with every character of `drop` removed (str.replace(c, "")). */
  function Without(s: string, drop: set<char>): (r: string)
    ensures |r| <= |s|
    ensures forall k :: 0 <= k < |r| ==> r[k] !in drop
  {
    if s == [] then []
    else (if s[0] in drop then [] else [s[0]]) + Without(s[1..], drop)
  }

  /** Removing characters distributes over concatenation. */
  lemma {:induction false} WithoutAppend(s: string, t: string, drop: set<char>)
    ensures Without(s + t, drop) == Without(s, drop) + Without(t, drop)
  {
    if s == [] {
      assert s + t == t;
    } else {
      var head := if s[0] in drop then [] else [s[0]];
      assert (s + t)[0] == s[0];
      assert (s + t)[1..] == s[1..] + t;
      assert Without(s + t, drop) == head + Without(s[1..] + t, drop);
      WithoutAppend(s[1..], t, drop);
      assert Without(s, drop) == head + Without(s[1..], drop);
    }
  }

  /** A text holding none of the dropped characters is left as it is, so
      cleaning twice is cleaning once. */
  lemma {:induction false} WithoutIdentity(s: string, drop: set<char>)
    requires forall k :: 0 <= k < |s| ==> s[k] !in drop
    ensures Without(s, drop) == s
  {
    if s != [] {
      WithoutIdentity(s[1..], drop);
    }
  }

  /** The bits the hex view packs: the editor text without newlines and
      spaces. */
  function ViewBits(text: string): string {
    Without(text, {'\n', ' '})
  }

  /** The text the exports write: the editor text without newlines. */
  function ExportText(text: string): string {
    Without(text, {'\n'})
  }

  // -------------------------------------------------------------- padding

  function Zeros(n: nat): (z: string)
    ensures |z| == n && forall k :: 0 <= k < n ==> z[k] == '0'
  {
    seq(n, _ => '0')
  }

  /** (8 - n % 8) % 8: the fewest zeros that bring n up to a whole number of
      bytes. */
  function Padding(n: nat): (p: nat)
    ensures p < 8 && (n + p) % 8 == 0
  {
    (8 - n % 8) % 8
  }

  /** The bits followed by their zero padding. */
  function Pad(bits: string): (p: string)
    ensures |p| % 8 == 0 && |bits| <= |p| < |bits| + 8
    ensures p[..|bits|] == bits
  {
    bits + Zeros(Padding(|bits|))
  }

  /** Padding adds only '0's, so it keeps a binary string binary. */
  lemma PadBinary(bits: string)
    ensures IsBinary(Pad(bits)) <==> IsBinary(bits)
  {
    var p := Pad(bits);
    if IsBinary(bits) {
      forall k | 0 <= k < |p| ensures p[k] == '0' || p[k] == '1' {
        if k >= |bits| {
          assert p[k] == Zeros(Padding(|bits|))[k - |bits|];
        } else {
          assert p[k] == bits[k];
        }
      }
    } else {
      var k :| 0 <= k < |bits| && !(bits[k] == '0' || bits[k] == '1');
      assert p[k] == bits[k];
    }
  }

  // -------------------------------------------------------- binary values

  function Bit(c: char): nat {
    if c == '1' then 1 else 0
  }

  /** int(s, 2) of a binary string: its value read most significant bit
      first. */
  function BinValue(s: string): nat {
    if s == [] then 0 else 2 * BinValue(s[..|s| - 1]) + Bit(s[|s| - 1])
  }

  /** n bits hold values below 2^n. */
  lemma {:induction false} BinValueBound(s: string)
    ensures BinValue(s) < Pow(2, |s|)
  {
    if s != [] {
      BinValueBound(s[..|s| - 1]);
    }
  }

  /** An 8-bit chunk is a byte value. */
  lemma ByteBound(c: string)
    requires |c| == 8
    ensures BinValue(c) < 256
  {
    BinValueBound(c);
    assert Pow(2, 8) == 256;
  }

  /** Leading zeros do not change the value. */
  lemma {:induction false} BinValueZeros(k: nat, t: string)
    ensures BinValue(Zeros(k) + t) == BinValue(t)
    decreases |t|
  {
    if t == [] {
      ZerosValue(k);
      assert Zeros(k) + t == Zeros(k);
    } else {
      assert (Zeros(k) + t)[..|Zeros(k) + t| - 1] == Zeros(k) + t[..|t| - 1];
      BinValueZeros(k, t[..|t| - 1]);
    }
  }

  lemma {:induction false} ZerosValue(k: nat)
    ensures BinValue(Zeros(k)) == 0
  {
    if k > 0 {
      assert Zeros(k)[..k - 1] == Zeros(k - 1);
      ZerosValue(k - 1);
    }
  }

  /** Two binary strings of the same length with the same value are equal:
      the last bit is the value's parity and the rest is the value halved. */
  lemma {:induction false} BinValueInjective(s: string, t: string)
    requires IsBinary(s) && IsBinary(t) && |s| == |t|
    requires BinValue(s) == BinValue(t)
    ensures s == t
  {
    if s != [] {
      var n := |s|;
      var s', t' := s[..n - 1], t[..n - 1];
      HalfAndParity(BinValue(s'), BinValue(t'), Bit(s[n - 1]), Bit(t[n - 1]));
      assert s[n - 1] == t[n - 1];
      SliceBinary(s, 0, n - 1);
      SliceBinary(t, 0, n - 1);
      BinValueInjective(s', t');
      assert s == s' + [s[n - 1]];
      assert t == t' + [t[n - 1]];
    }
  }

  /** A number 2a + x with x a bit determines both a and x. */
  lemma HalfAndParity(a: nat, b: nat, x: nat, y: nat)
    requires x < 2 && y < 2 && 2 * a + x == 2 * b + y
    ensures a == b && x == y
  {
  }

  // --------------------------------------------------- number formatting

  /** The digit characters of bases up to 16, upper case as in the X format. */
  function DigitChar(d: nat): char
    requires d < 16
  {
    "0123456789ABCDEF"[d]
  }

  /** The digits of v in the given base, without leading zeros ("0" for 0):
      what Python's b and X formats print. */
  function Digits(v: nat, base: nat): (s: string)
    requires 2 <= base <= 16
    ensures 1 <= |s|
  {
    if v < base then [DigitChar(v)]
    else Digits(v / base, base) + [DigitChar(v % base)]
  }

  /** "{v:0{width}b}" / "{v:0{width}X}": the digits, zero-padded on the left to
      `width` characters; a number that needs more digits is printed whole. */
  function FormatFixed(v: nat, width: int, base: nat): (s: string)
    requires 2 <= base <= 16
  {
    var d := Digits(v, base);
    (if width > |d| then Zeros(width - |d|) else []) + d
  }

  function FormatBin(v: nat, width: int): string {
    FormatFixed(v, width, 2)
  }

  function FormatHex(v: nat, width: int): string {
    FormatFixed(v, width, 16)
  }

  function Pow(base: nat, n: nat): (p: nat)
    ensures p >= 1 || base == 0
  {
    if n == 0 then 1 else base * Pow(base, n - 1)
  }

  /** A number below base^width has at most `width` digits (at least one
      digit is always printed). */
  lemma {:induction false} DigitsFit(v: nat, base: nat, width: nat)
    requires 2 <= base <= 16 && width >= 1 && v < Pow(base, width)
    ensures |Digits(v, base)| <= width
    decreases width
  {
    if v >= base {
      var p := Pow(base, width - 1);
      assert Pow(base, width) == base * p;
      DivBelow(v, base, p);
      assert v / base >= 1;
      assert width - 1 >= 1;
      DigitsFit(v / base, base, width - 1);
      assert Digits(v, base) == Digits(v / base, base) + [DigitChar(v % base)];
    }
  }

  lemma DivBelow(v: nat, b: nat, p: nat)
    requires b >= 1 && v < b * p
    ensures v / b < p
  {
    if v / b >= p {
      MulMonotone(p, v / b, b);
    }
  }

  lemma MulMonotone(a: int, c: int, b: int)
    requires 0 <= a <= c && b >= 0
    ensures a * b <= c * b
  {
    assert c * b == a * b + (c - a) * b;
    assert (c - a) * b >= 0;
  }

  /** Fixed width: a number below base^width prints as exactly `width`
      characters. */
  lemma FormatFixedLength(v: nat, width: nat, base: nat)
    requires 2 <= base <= 16 && width >= 1 && v < Pow(base, width)
    ensures |FormatFixed(v, width, base)| == width
  {
    DigitsFit(v, base, width);
  }

  /** The binary digits read back with int(s, 2) give the number again. */
  lemma {:induction false} DigitsValue(v: nat)
    ensures IsBinary(Digits(v, 2))
    ensures BinValue(Digits(v, 2)) == v
  {
    assert DigitChar(0) == '0' && DigitChar(1) == '1';
    var s := Digits(v, 2);
    if v >= 2 {
      DigitsValue(v / 2);
      var d := Digits(v / 2, 2);
      var c := DigitChar(v % 2);
      assert s == d + [c];
      assert s[..|s| - 1] == d;
      assert Bit(c) == v % 2;
      forall k | 0 <= k < |s| ensures s[k] == '0' || s[k] == '1' {
        if k < |d| {
          assert s[k] == d[k];
        }
      }
    } else {
      assert s == [DigitChar(v)];
      assert s[..0] == [];
    }
  }

  /** Formatting in binary and parsing back is the identity, whatever the
      padding width. */
  lemma FormatBinValue(v: nat, width: int)
    ensures IsBinary(FormatBin(v, width))
    ensures BinValue(FormatBin(v, width)) == v
  {
    var d := Digits(v, 2);
    DigitsValue(v);
    if width > |d| {
      BinValueZeros(width - |d|, d);
    } else {
      assert FormatBin(v, width) == d;
    }
  }

  /** ... and parsing a binary string and formatting it at its own width
      gives the string back. */
  lemma BinValueFormat(s: string)
    requires IsBinary(s) && |s| >= 1
    ensures FormatBin(BinValue(s), |s|) == s
  {
    var v := BinValue(s);
    BinValueBound(s);
    FormatFixedLength(v, |s|, 2);
    FormatBinValue(v, |s|);
    BinValueInjective(FormatBin(v, |s|), s);
  }

  // -------------------------------------------------------------- packing

  /** What one 8-bit chunk contributes: its value, or nothing when int()
      rejects it. */
  function ChunkPart(chunk: string): seq<nat> {
    if IsBinary(chunk) then [BinValue(chunk)] else []
  }

  /** The byte values of the 8-bit chunks of a padded bit string, in order;
      a chunk that int(chunk, 2) rejects contributes nothing. */
  function PackChunks(p: string): (bytes: seq<nat>)
    requires |p| % 8 == 0
    ensures |bytes| <= |p| / 8
    decreases |p|
  {
    if p == [] then []
    else
      var chunk := p[|p| - 8..];
      PackChunks(p[..|p| - 8]) + ChunkPart(chunk)
  }

  /** Every packed value is a byte. */
  lemma {:induction false} PackBound(p: string)
    requires |p| % 8 == 0
    ensures forall k :: 0 <= k < |PackChunks(p)| ==> PackChunks(p)[k] < 256
    decreases |p|
  {
    if p != [] {
      PackBound(p[..|p| - 8]);
      ByteBound(p[|p| - 8..]);
    }
  }

  /** One chunk alone: its value when it is binary, nothing otherwise. */
  lemma PackOne(c: string)
    requires |c| == 8
    ensures PackChunks(c) == if IsBinary(c) then [BinValue(c)] else []
  {
    assert c[..0] == [];
    assert c[0..] == c;
  }

  /** For binary bits every chunk is kept: the k-th byte is the value of bits
      [8k, 8k+8). */
  lemma {:induction false} PackBinary(p: string)
    requires |p| % 8 == 0 && IsBinary(p)
    ensures |PackChunks(p)| == |p| / 8
    ensures forall k :: 0 <= k < |p| / 8 ==> PackChunks(p)[k] == BinValue(p[8 * k..8 * k + 8])
    decreases |p|
  {
    if p != [] {
      var n := |p|;
      var front := p[..n - 8];
      SliceBinary(p, 0, n - 8);
      SliceBinary(p, n - 8, n);
      PackBinary(front);
      PackLast(p);
      forall k | 0 <= k < n / 8
        ensures PackChunks(p)[k] == BinValue(p[8 * k..8 * k + 8])
      {
        PackedByteAt(p, k);
      }
    }
  }

  /** One byte of the inductive step of PackBinary: a byte of the front is
      unchanged, the last byte is the value of the last chunk. */
  lemma PackedByteAt(p: string, k: nat)
    requires |p| % 8 == 0 && p != [] && k < |p| / 8
    requires PackChunks(p) == PackChunks(p[..|p| - 8]) + [BinValue(p[|p| - 8..])]
    requires |PackChunks(p[..|p| - 8])| == (|p| - 8) / 8
    requires forall j :: 0 <= j < (|p| - 8) / 8 ==>
      PackChunks(p[..|p| - 8])[j] == BinValue(p[..|p| - 8][8 * j..8 * j + 8])
    ensures PackChunks(p)[k] == BinValue(p[8 * k..8 * k + 8])
  {
    var n := |p|;
    if k < (n - 8) / 8 {
      SliceOfPrefix(p, n - 8, 8 * k, 8 * k + 8);
    } else {
      assert 8 * k == n - 8;
      assert k == |PackChunks(p[..n - 8])|;
      assert p[8 * k..8 * k + 8] == p[n - 8..];
    }
  }

  /** A slice of a prefix is the same slice of the whole. */
  lemma SliceOfPrefix(p: string, m: nat, i: nat, j: nat)
    requires i <= j <= m <= |p|
    ensures p[..m][i..j] == p[i..j]
  {
  }

  /** Every piece of a binary string is binary. */
  lemma SliceBinary(p: string, i: nat, j: nat)
    requires i <= j <= |p| && IsBinary(p)
    ensures IsBinary(p[i..j])
  {
    forall k | 0 <= k < j - i ensures p[i..j][k] == '0' || p[i..j][k] == '1' {
      assert p[i..j][k] == p[i + k];
    }
  }

  /** One more chunk of the loops below: the packed prefix grows by the
      chunk's value when the chunk is binary, and the prefix stays binary
      exactly when the chunk is. */
  lemma PackStep(p: string, i: nat)
    requires i % 8 == 0 && i + 8 <= |p|
    ensures var chunk := p[i..i + 8];
      && PackChunks(p[..i + 8]) == PackChunks(p[..i]) + ChunkPart(chunk)
      && (IsBinary(p[..i + 8]) <==> IsBinary(p[..i]) && IsBinary(chunk))
  {
    var q := p[..i + 8];
    var chunk := p[i..i + 8];
    assert q[..i] == p[..i];
    assert q[i..] == chunk;
    assert q == p[..i] + chunk;
    if IsBinary(q) {
      SliceBinary(q, 0, i);
      SliceBinary(q, i, i + 8);
    }
    if IsBinary(p[..i]) && IsBinary(chunk) {
      forall k | 0 <= k < i + 8 ensures q[k] == '0' || q[k] == '1' {
        if k < i {
          assert q[k] == p[..i][k];
        } else {
          assert q[k] == chunk[k - i];
        }
      }
    }
  }

  /** A chunk that starts inside a whole number of bytes ends inside it. */
  lemma ChunkFits(i: int, n: int)
    requires 0 <= i < n && i % 8 == 0 && n % 8 == 0
    ensures i + 8 <= n && (i + 8) % 8 == 0
  {
    ModUnique(i + 8, 8, i / 8 + 1, 0);
  }

  /** The bytes of the hex view. */
  function HexBytes(text: string): seq<nat> {
    PackChunks(Pad(ViewBits(text)))
  }

  /** update_hex_view's packing loop: strips the text, pads it and appends the
      value of every binary 8-bit chunk. */
  method PackBytes(text: string) returns (byteData: seq<nat>)
    ensures byteData == HexBytes(text)
  {
    var bits := ViewBits(text);
    var padded := Pad(bits);
    byteData := PackPadded(padded);
  }

  /** The loop of update_hex_view over the padded bits: every 8-bit chunk
      that int(chunk, 2) accepts is appended, the others are skipped. */
  method PackPadded(padded: string) returns (byteData: seq<nat>)
    requires |padded| % 8 == 0
    ensures byteData == PackChunks(padded)
  {
    byteData := [];
    var i := 0;
    while i < |padded|
      invariant 0 <= i <= |padded| && i % 8 == 0
      invariant byteData == PackChunks(padded[..i])
    {
      ChunkFits(i, |padded|);
      var chunk := padded[i..i + 8];
      PackStep(padded, i);
      if IsBinary(chunk) {
        byteData := byteData + [BinValue(chunk)];
      }
      i := i + 8;
    }
    assert padded[..i] == padded;
  }

  // --------------------------------------------------------------- export

  /** The bits of a byte sequence, eight per byte, most significant first. */
  function Unpack(bytes: seq<nat>): string {
    if bytes == [] then []
    else Unpack(bytes[..|bytes| - 1]) + FormatBin(bytes[|bytes| - 1], 8)
  }

  /** What the .bin export produces: the packed bytes, or an error when a
      chunk is not binary (int() raises and nothing is written). */
  function ExportBinSpec(text: string): Result<seq<nat>> {
    var p := Pad(ExportText(text));
    if IsBinary(p) then Ok(PackChunks(p))
    else Err("invalid literal for int() with base 2")
  }

  /** export_data('bin') after the file dialog: the packing loop with its
      error path. */
  method ExportBin(text: string) returns (r: Result<seq<nat>>)
    ensures r == ExportBinSpec(text)
  {
    var dataText := ExportText(text);
    var bitsPadded := Pad(dataText);
    r := PackStrict(bitsPadded);
  }

  /** The loop of export_data over the padded bits: the first chunk that
      int(chunk, 2) rejects aborts the export. */
  method PackStrict(bitsPadded: string) returns (r: Result<seq<nat>>)
    requires |bitsPadded| % 8 == 0
    ensures r == if IsBinary(bitsPadded) then Ok(PackChunks(bitsPadded)) else Err("invalid literal for int() with base 2")
  {
    var byteArray: seq<nat> := [];
    var i := 0;
    while i < |bitsPadded|
      invariant 0 <= i <= |bitsPadded| && i % 8 == 0
      invariant IsBinary(bitsPadded[..i])
      invariant byteArray == PackChunks(bitsPadded[..i])
    {
      ChunkFits(i, |bitsPadded|);
      var chunk := bitsPadded[i..i + 8];
      PackStep(bitsPadded, i);
      if !IsBinary(chunk) {
        if IsBinary(bitsPadded) {
          SliceBinary(bitsPadded, i, i + 8);
        }
        return Err("invalid literal for int() with base 2");
      }
      byteArray := byteArray + [BinValue(chunk)];
      i := i + 8;
    }
    assert bitsPadded[..i] == bitsPadded;
    r := Ok(byteArray);
  }

  /** The export succeeds exactly for binary text, and then writes
      ceil(len/8) bytes whose bits start with the exported text: unpacking
      and dropping the padding gives the text back. */
  lemma ExportRoundTrip(text: string)
    ensures ExportBinSpec(text).Ok? <==> IsBinary(ExportText(text))
    ensures ExportBinSpec(text).Ok? ==>
      var data := ExportText(text);
      var bytes := ExportBinSpec(text).value;
      && |bytes| == (|data| + 7) / 8
      && |data| <= |Unpack(bytes)|
      && Unpack(bytes)[..|data|] == data
  {
    var data := ExportText(text);
    PadBinary(data);
    if IsBinary(data) {
      var p := Pad(data);
      PackBinary(p);
      UnpackPack(p);
    }
  }

  /** Packing a binary string and unpacking the bytes gives the string. */
  lemma {:induction false} UnpackPack(p: string)
    requires |p| % 8 == 0 && IsBinary(p)
    ensures Unpack(PackChunks(p)) == p
    decreases |p|
  {
    if p != [] {
      var n := |p|;
      var chunk := p[n - 8..];
      var front := p[..n - 8];
      SliceBinary(p, n - 8, n);
      SliceBinary(p, 0, n - 8);
      UnpackPack(front);
      PackLast(p);
      UnpackLast(PackChunks(front), BinValue(chunk));
      BinValueFormat(chunk);
      SplitAt(p, n - 8);
    }
  }

  /** The last chunk of a binary tail is packed as its value. */
  lemma PackLast(p: string)
    requires |p| % 8 == 0 && p != [] && IsBinary(p[|p| - 8..])
    ensures PackChunks(p) == PackChunks(p[..|p| - 8]) + [BinValue(p[|p| - 8..])]
  {
  }

  /** A string is its prefix followed by its suffix. */
  lemma SplitAt(p: string, k: nat)
    requires k <= |p|
    ensures p[..k] + p[k..] == p
  {
  }

  /** Unpacking one more byte appends its eight bits. */
  lemma UnpackLast(bytes: seq<nat>, b: nat)
    ensures Unpack(bytes + [b]) == Unpack(bytes) + FormatBin(b, 8)
  {
    assert (bytes + [b])[..|bytes|] == bytes;
  }

  // ------------------------------------------------------- hex table layout

  /** Rows of the hex table: sixteen bytes per row, the last one partial. */
  function HexRows(n: nat): nat {
    (n + 15) / 16
  }

  /** Where byte idx appears: row idx // 16, column idx % 16 + 1 (column 0
      holds the offset, column 17 the ASCII text). */
  function CellOf(idx: nat): (cell: (nat, nat))
    ensures 1 <= cell.1 <= 16
  {
    (idx / 16, idx % 16 + 1)
  }

  /** The byte behind a hex cell. */
  function ByteAt(row: nat, col: nat): nat
    requires 1 <= col <= 16
  {
    row * 16 + (col - 1)
  }

  /** Cells and byte indices are in one-to-one correspondence, and every byte
      has its cell inside the table. */
  lemma CellRoundTrip(idx: nat, row: nat, col: nat, n: nat)
    requires 1 <= col <= 16
    ensures ByteAt(CellOf(idx).0, CellOf(idx).1) == idx
    ensures CellOf(ByteAt(row, col)) == (row, col)
    ensures idx < n ==> CellOf(idx).0 < HexRows(n)
  {
    ModUnique(row * 16 + (col - 1), 16, row, col - 1);
  }

  /** The ASCII column's rendering of a byte: printable ASCII as itself,
      anything else as '.'. */
  function AsciiChar(v: nat): (c: char)
    ensures 32 <= c as int <= 126
    ensures 32 <= v <= 126 ==> c as int == v
    ensures !(32 <= v <= 126) ==> c == '.'
  {
    if 32 <= v <= 126 then v as char else '.'
  }

  /** One row of the hex table as text: the offset, sixteen cells (format 02X
      for a byte, empty past the end) and the ASCII rendering. */
  datatype HexRow = HexRow(offset: string, cells: seq<string>, ascii: string)

  /** The text of the hex cell for byte idx: format 02X, or empty past the end
      of the data. */
  function CellText(bytes: seq<nat>, idx: nat): string {
    if idx < |bytes| then FormatHex(bytes[idx], 2) else ""
  }

  /** Bytes shown in a row: sixteen, fewer in the last row. */
  function RowLength(n: nat, row: nat): (count: nat)
    ensures count <= 16
    ensures count == 0 || row * 16 + count <= n
    ensures count < 16 ==> row * 16 + count >= n
  {
    if n - row * 16 >= 16 then 16 else if n >= row * 16 then n - row * 16 else 0
  }

  function RenderRow(bytes: seq<nat>, row: nat): HexRow {
    var count := RowLength(|bytes|, row);
    HexRow(FormatHex(row * 16, 8),
           seq(16, col requires 0 <= col < 16 => CellText(bytes, row * 16 + col)),
           seq(count, k requires 0 <= k < count => AsciiChar(bytes[row * 16 + k])))
  }

  /** The table of update_hex_view. */
  function HexTable(bytes: seq<nat>): (t: seq<HexRow>)
    ensures |t| == HexRows(|bytes|)
  {
    seq(HexRows(|bytes|), row requires 0 <= row < HexRows(|bytes|) => RenderRow(bytes, row))
  }

  /** A byte of the row shows in its cell in format 02X and in the ASCII text
      at the same column. */
  lemma RenderRowShows(bytes: seq<nat>, row: nat, col: nat)
    requires 1 <= col <= 16 && row * 16 + (col - 1) < |bytes|
    ensures var r := RenderRow(bytes, row);
      && r.cells[col - 1] == FormatHex(bytes[row * 16 + (col - 1)], 2)
      && col - 1 < |r.ascii|
      && r.ascii[col - 1] == AsciiChar(bytes[row * 16 + (col - 1)])
  {
    assert RenderRow(bytes, row).cells[col - 1] == CellText(bytes, row * 16 + (col - 1));
  }

  /** Every byte shows in the cell CellOf gives it, as two hex digits, and
      in its row's ASCII text at its column. */
  lemma HexTableShows(bytes: seq<nat>, idx: nat)
    requires forall k :: 0 <= k < |bytes| ==> bytes[k] < 256
    requires idx < |bytes|
    ensures var cell := CellOf(idx);
      && cell.0 < |HexTable(bytes)|
      && HexTable(bytes)[cell.0].cells[cell.1 - 1] == FormatHex(bytes[idx], 2)
      && |HexTable(bytes)[cell.0].cells[cell.1 - 1]| == 2
      && cell.1 - 1 < |HexTable(bytes)[cell.0].ascii|
      && HexTable(bytes)[cell.0].ascii[cell.1 - 1] == AsciiChar(bytes[idx])
  {
    var row, col := idx / 16, idx % 16 + 1;
    assert row * 16 + (col - 1) == idx;
    assert HexTable(bytes)[row] == RenderRow(bytes, row);
    RenderRowShows(bytes, row, col);
    HexByteWidth(bytes[idx]);
  }

  /** A byte prints as exactly two hex digits. */
  lemma HexByteWidth(v: nat)
    requires v < 256
    ensures |FormatHex(v, 2)| == 2
  {
    assert Pow(16, 1) == 16 * Pow(16, 0);
    FormatFixedLength(v, 2, 16);
  }

  // ------------------------------------------------------- search patterns

  /** int(c, 16) of one ASCII character: its value, or None when it is not a
      hexadecimal digit. */
  function HexDigitValue(c: char): (v: Option<nat>)
    ensures v.Some? ==> v.value < 16
  {
    if '0' <= c <= '9' then Some(c as int - '0' as int)
    else if 'a' <= c <= 'f' then Some(c as int - 'a' as int + 10)
    else if 'A' <= c <= 'F' then Some(c as int - 'A' as int + 10)
    else None
  }

  /** The pattern in hex mode: four bits per digit, most significant first;
      None when a character is not a hex digit. */
  function ExpandHexSpec(pattern: string): (r: Option<string>)
  {
    if pattern == [] then Some([])
    else
      var last := HexDigitValue(pattern[|pattern| - 1]);
      var front := ExpandHexSpec(pattern[..|pattern| - 1]);
      if front.None? || last.None? then None
      else Some(front.value + FormatBin(last.value, 4))
  }

  /** find_pattern's hex expansion loop, aborting on the first invalid digit. */
  method ExpandHex(pattern: string) returns (r: Option<string>)
    ensures r == ExpandHexSpec(pattern)
  {
    var binPattern := "";
    var i := 0;
    while i < |pattern|
      invariant 0 <= i <= |pattern|
      invariant ExpandHexSpec(pattern[..i]) == Some(binPattern)
    {
      assert pattern[..i + 1][..i] == pattern[..i];
      var val := HexDigitValue(pattern[i]);
      if val.None? {
        ExpandHexStuck(pattern, i + 1);
        return None;
      }
      binPattern := binPattern + FormatBin(val.value, 4);
      i := i + 1;
    }
    assert pattern[..i] == pattern;
    r := Some(binPattern);
  }

  /** Once a prefix fails to expand, the whole pattern fails. */
  lemma {:induction false} ExpandHexStuck(pattern: string, j: nat)
    requires j <= |pattern| && ExpandHexSpec(pattern[..j]).None?
    ensures ExpandHexSpec(pattern).None?
    decreases |pattern| - j
  {
    if j < |pattern| {
      assert pattern[..j + 1][..j] == pattern[..j];
      ExpandHexStuck(pattern, j + 1);
    } else {
      assert pattern[..j] == pattern;
    }
  }

  /** A digit's four bits read back as its value. */
  lemma NibbleValue(v: nat)
    requires v < 16
    ensures |FormatBin(v, 4)| == 4
    ensures IsBinary(FormatBin(v, 4)) && BinValue(FormatBin(v, 4)) == v
  {
    assert Pow(2, 4) == 16 by {
      assert Pow(2, 1) == 2 * Pow(2, 0);
    }
    FormatFixedLength(v, 4, 2);
    FormatBinValue(v, 4);
  }

  /** The expansion succeeds exactly when every character is a hex digit. */
  lemma {:induction false} ExpandHexSome(pattern: string)
    ensures ExpandHexSpec(pattern).Some? <==> forall k :: 0 <= k < |pattern| ==> HexDigitValue(pattern[k]).Some?
    decreases |pattern|
  {
    if pattern != [] {
      var n := |pattern|;
      var front := pattern[..n - 1];
      ExpandHexSome(front);
      if ExpandHexSpec(pattern).Some? {
        forall k | 0 <= k < n ensures HexDigitValue(pattern[k]).Some? {
          if k < n - 1 {
            assert pattern[k] == front[k];
          }
        }
      } else if HexDigitValue(pattern[n - 1]).Some? {
        var k :| 0 <= k < n - 1 && HexDigitValue(front[k]).None?;
        assert pattern[k] == front[k];
      }
    }
  }

  /** An expanded pattern is four times as long as the digits, binary, and
      bits [4k, 4k+4) read back as the value of digit k. */
  lemma ExpandHexShape(pattern: string)
    requires ExpandHexSpec(pattern).Some?
    ensures var bits := ExpandHexSpec(pattern).value;
      && |bits| == 4 * |pattern|
      && IsBinary(bits)
      && forall k :: 0 <= k < |pattern| ==>
           HexDigitValue(pattern[k]).Some? && BinValue(bits[4 * k..4 * k + 4]) == HexDigitValue(pattern[k]).value
  {
    ExpandHexBinary(pattern);
    ExpandHexDigits(pattern);
  }

  /** The expansion of the digits is binary, four bits per digit. */
  lemma {:induction false} ExpandHexBinary(pattern: string)
    requires ExpandHexSpec(pattern).Some?
    ensures |ExpandHexSpec(pattern).value| == 4 * |pattern|
    ensures IsBinary(ExpandHexSpec(pattern).value)
    decreases |pattern|
  {
    if pattern != [] {
      var front := pattern[..|pattern| - 1];
      ExpandHexBinary(front);
      var last := HexDigitValue(pattern[|pattern| - 1]).value;
      NibbleValue(last);
      AppendBinary(ExpandHexSpec(front).value, FormatBin(last, 4));
    }
  }

  /** Bits [4k, 4k+4) of the expansion are the value of digit k. */
  lemma {:induction false} ExpandHexDigits(pattern: string)
    requires ExpandHexSpec(pattern).Some?
    ensures |ExpandHexSpec(pattern).value| == 4 * |pattern|
    ensures forall k :: 0 <= k < |pattern| ==>
      HexDigitValue(pattern[k]).Some? && BinValue(ExpandHexSpec(pattern).value[4 * k..4 * k + 4]) == HexDigitValue(pattern[k]).value
    decreases |pattern|
  {
    if pattern != [] {
      var n := |pattern|;
      var front := pattern[..n - 1];
      ExpandHexDigits(front);
      var last := HexDigitValue(pattern[n - 1]).value;
      var fb := ExpandHexSpec(front).value;
      var nib := FormatBin(last, 4);
      NibbleValue(last);
      forall k | 0 <= k < n
        ensures HexDigitValue(pattern[k]).Some? && BinValue((fb + nib)[4 * k..4 * k + 4]) == HexDigitValue(pattern[k]).value
      {
        NibbleAt(pattern, fb, nib, k);
      }
      assert ExpandHexSpec(pattern).value == fb + nib;
    }
  }

  /** One digit of the inductive step of ExpandHexDigits: a digit of the
      front keeps its nibble, the last digit gets the new one. */
  lemma NibbleAt(pattern: string, fb: string, nib: string, k: nat)
    requires pattern != [] && k < |pattern| && |fb| == 4 * (|pattern| - 1)
    requires HexDigitValue(pattern[|pattern| - 1]).Some?
    requires nib == FormatBin(HexDigitValue(pattern[|pattern| - 1]).value, 4)
    requires BinValue(nib) == HexDigitValue(pattern[|pattern| - 1]).value && |nib| == 4
    requires forall j :: 0 <= j < |pattern| - 1 ==>
      HexDigitValue(pattern[..|pattern| - 1][j]).Some? && BinValue(fb[4 * j..4 * j + 4]) == HexDigitValue(pattern[..|pattern| - 1][j]).value
    ensures HexDigitValue(pattern[k]).Some? && BinValue((fb + nib)[4 * k..4 * k + 4]) == HexDigitValue(pattern[k]).value
  {
    if k < |pattern| - 1 {
      SlicePrefix(fb, nib, 4 * k, 4 * k + 4);
      assert pattern[k] == pattern[..|pattern| - 1][k];
    } else {
      assert (fb + nib)[4 * k..4 * k + 4] == nib;
    }
  }

  /** Two binary strings joined are binary. */
  lemma AppendBinary(a: string, b: string)
    requires IsBinary(a) && IsBinary(b)
    ensures IsBinary(a + b)
  {
    forall k | 0 <= k < |a + b| ensures (a + b)[k] == '0' || (a + b)[k] == '1' {
      if k >= |a| {
        assert (a + b)[k] == b[k - |a|];
      }
    }
  }

  /** A slice that ends inside the first part of a concatenation lies in
      that part. */
  lemma SlicePrefix(a: string, b: string, i: nat, j: nat)
    requires i <= j <= |a|
    ensures (a + b)[i..j] == a[i..j]
  {
  }

  // ---------------------------------------------------------------- search

  /** A match of the pattern at position i. */
  predicate MatchAt(text: string, pattern: string, i: int) {
    0 <= i && i + |pattern| <= |text| && text[i..i + |pattern|] == pattern
  }

  /** str.find(pattern, from) for from >= 0: the first match at or after
      `from`, or -1. */
  function Find(text: string, pattern: string, from: nat): (r: int)
    ensures r == -1 || (from <= r && r + |pattern| <= |text|)
    decreases |text| - from
  {
    if from + |pattern| > |text| then -1
    else if text[from..from + |pattern|] == pattern then from
    else Find(text, pattern, from + 1)
  }

  /** What find returns: a match at or after `from` with none between
      `from` and it, or -1 when there is no match at or after `from`. */
  lemma {:induction false} FindSpec(text: string, pattern: string, from: nat)
    ensures var r := Find(text, pattern, from);
      && (r != -1 ==> MatchAt(text, pattern, r))
      && (r == -1 ==> forall i :: from <= i ==> !MatchAt(text, pattern, i))
      && (r != -1 ==> forall i :: from <= i < r ==> !MatchAt(text, pattern, i))
    decreases |text| - from
  {
    if from + |pattern| <= |text| && text[from..from + |pattern|] != pattern {
      FindSpec(text, pattern, from + 1);
    }
  }

  /** find_pattern's search: from the cursor, and once more from the start
      of the text when nothing follows the cursor. */
  function FindWrapped(text: string, pattern: string, from: nat): int {
    var idx := Find(text, pattern, from);
    if idx == -1 then Find(text, pattern, 0) else idx
  }

  /** The wrapped search fails only when the pattern occurs nowhere; a match
      at or after the cursor wins over one before it, and each is the first
      of its kind. */
  lemma FindWrappedFinds(text: string, pattern: string, from: nat)
    ensures var r := FindWrapped(text, pattern, from);
      && (r == -1 <==> forall i :: !MatchAt(text, pattern, i))
      && (r != -1 ==> MatchAt(text, pattern, r))
      && ((exists i :: from <= i && MatchAt(text, pattern, i)) ==>
            from <= r && forall i :: from <= i < r ==> !MatchAt(text, pattern, i))
      && ((forall i :: from <= i ==> !MatchAt(text, pattern, i)) && r != -1 ==>
            r < from && forall i :: 0 <= i < r ==> !MatchAt(text, pattern, i))
  {
    var r := FindWrapped(text, pattern, from);
    FindSpec(text, pattern, from);
    FindSpec(text, pattern, 0);
    if r == -1 {
      forall i ensures !MatchAt(text, pattern, i) {
        if i >= 0 {
          assert 0 <= i;
        }
      }
    }
  }

  // ----------------------------------------------------------- highlighter

  /** A run of `length` characters starting at `start` given the highlight
      format. */
  datatype Span = Span(start: nat, length: nat)

  /** Number of values in range(8, n, 16). */
  function SpanCount(n: nat): nat {
    if n <= 8 then 0 else (n - 8 + 15) / 16
  }

  /** The spans ByteHighlighter.highlightBlock marks: the second byte of every
      sixteen characters, cut at the end of the text. */
  function SpanAt(n: nat, j: nat): Span {
    var i := 8 + 16 * j;
    Span(i, if n - i >= 8 then 8 else if n >= i then n - i else 0)
  }

  /** highlightBlock: for i in range(8, len(text), 16) format
      min(8, len(text) - i) characters from i. */
  method HighlightBlock(n: nat) returns (spans: seq<Span>)
    ensures |spans| == SpanCount(n)
    ensures forall j :: 0 <= j < |spans| ==> spans[j] == SpanAt(n, j)
  {
    spans := [];
    var i := 8;
    while i < n
      invariant i == 8 + 16 * |spans|
      invariant |spans| <= SpanCount(n)
      invariant i < n + 16
      invariant forall j :: 0 <= j < |spans| ==> spans[j] == SpanAt(n, j)
      decreases n - i
    {
      var length := if 8 <= n - i then 8 else n - i;
      spans := spans + [Span(i, length)];
      i := i + 16;
    }
  }

  /** Position p is inside span j. */
  predicate Covers(s: Span, p: nat) {
    s.start <= p < s.start + s.length
  }

  /** Span j exists exactly when its start 8 + 16j lies inside the text. */
  lemma SpanCountAt(n: nat, j: nat)
    ensures j < SpanCount(n) <==> 8 + 16 * j < n
  {
  }

  /** The spans are non-empty, stay inside the text and never overlap. */
  lemma HighlightSpans(n: nat)
    ensures forall j :: 0 <= j < SpanCount(n) ==>
      SpanAt(n, j).length >= 1 && SpanAt(n, j).start + SpanAt(n, j).length <= n
    ensures forall j, k :: 0 <= j < k < SpanCount(n) ==>
      SpanAt(n, j).start + SpanAt(n, j).length <= SpanAt(n, k).start
  {
    forall j | 0 <= j < SpanCount(n)
      ensures SpanAt(n, j).length >= 1 && SpanAt(n, j).start + SpanAt(n, j).length <= n
    {
      SpanCountAt(n, j);
    }
  }

  /** A position is highlighted exactly when it lies in an odd-numbered
      group of eight characters. */
  lemma HighlightCovers(n: nat, p: nat)
    requires p < n
    ensures (exists j :: 0 <= j < SpanCount(n) && Covers(SpanAt(n, j), p)) <==> (p / 8) % 2 == 1
  {
    if (p / 8) % 2 == 1 {
      OddGroupCovered(n, p);
    }
    forall j | 0 <= j < SpanCount(n) && Covers(SpanAt(n, j), p)
      ensures (p / 8) % 2 == 1
    {
      CoveredIsOdd(n, p, j);
    }
  }

  /** A position in an odd group of eight lies in span (p - 8) / 16. */
  lemma OddGroupCovered(n: nat, p: nat)
    requires p < n && (p / 8) % 2 == 1
    ensures p >= 8 && (p - 8) / 16 < SpanCount(n) && Covers(SpanAt(n, (p - 8) / 16), p)
  {
    var q, r := p / 8, p % 8;
    var j := q / 2;
    assert q == 2 * j + 1;
    ModUnique(p - 8, 16, j, r);
    SpanCountAt(n, j);
  }

  /** A position inside span j is in group 2j + 1 of eight. */
  lemma CoveredIsOdd(n: nat, p: nat, j: nat)
    requires Covers(SpanAt(n, j), p)
    ensures p / 8 == 2 * j + 1 && (p / 8) % 2 == 1
  {
    ModUnique(p, 16, j, p - 16 * j);
  }
}
