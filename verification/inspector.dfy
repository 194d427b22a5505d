/** The Inspector tab (tabs/inspector_tab.py) as a state machine: the loaded
    symbol stream, the symbol-to-bits mapping table, the logic options, the
    bit editor's text and cursor, and the hex table. Qt widgets become fields;
    a signal that runs a slot becomes a call of the slot's method. */
module Inspector {
  import opened Wrappers
  import opened LineDecoder
  import opened BitStream
  import opened MappingPresets

  /** The three entries of the line-code combo box. */
  datatype Encoding = Nrz | ManchesterIeee | ManchesterThomas

  /** The scheme name apply_mapping passes to decode_manchester_string. */
  function Scheme(e: Encoding): (s: string)
    requires e != Nrz
    ensures KnownScheme(s)
  {
    if e == ManchesterIeee then "IEEE" else "Thomas"
  }

  // ------------------------------------------------------------- mapping

  /** apply_mapping's symbol processing: differential decoding first, then
      inversion, both modulo the number of table rows. */
  function Processed(symbols: seq<int>, rows: nat, diff: bool, invert: bool): (p: seq<int>)
    requires rows >= 1
    ensures |p| == |symbols|
    ensures diff || InRange(symbols, rows) ==> InRange(p, rows)
  {
    var d := if diff then DecodeDifferential(symbols, rows) else symbols;
    if invert then InvertSymbols(d, rows) else d
  }

  /** A table cell's text: item.text(), or "" for a row without an item. */
  function CellString(cell: Option<string>): string {
    if cell.Some? then cell.value else ""
  }

  /** The message of the TypeError "".join raises on a symbol the table has
      no row for, without the index of the failing item. */
  const UNMAPPED: string := "sequence item: expected str instance, NoneType found"

  /** The bit string of a symbol stream: the table cells of the symbols,
      joined in order. A symbol without a row leaves None in the object
      array, and joining it raises. */
  function MapSymbols(s: seq<int>, table: seq<Option<string>>): (r: Result<string>)
    ensures r.Ok? <==> InRange(s, |table|)
    ensures r.Err? ==> r.msg == UNMAPPED
    decreases |s|
  {
    if s == [] then Ok([])
    else
      var rest := MapSymbols(s[1..], table);
      assert InRange(s, |table|) <==> 0 <= s[0] < |table| && InRange(s[1..], |table|) by {
        assert forall i :: 0 < i < |s| ==> s[i] == s[1..][i - 1];
      }
      if !(0 <= s[0] < |table|) || rest.Err? then Err(UNMAPPED)
      else Ok(CellString(table[s[0]]) + rest.value)
  }

  /** Every row holds a cell of `w` characters. */
  predicate Uniform(table: seq<Option<string>>, w: nat) {
    forall i :: 0 <= i < |table| ==> table[i].Some? && |table[i].value| == w
  }

  /** No two rows hold the same cell. */
  predicate Distinct(table: seq<Option<string>>) {
    forall i, j :: 0 <= i < j < |table| ==> table[i] != table[j]
  }

  /** With cells of equal width w, the bit string is w characters per
      symbol, and characters [w*k, w*k + w) are the cell of symbol k. */
  lemma MapChunks(s: seq<int>, table: seq<Option<string>>, w: nat)
    requires Uniform(table, w) && InRange(s, |table|)
    ensures var r := MapSymbols(s, table).value;
      && |r| == w * |s|
      && forall k :: 0 <= k < |s| ==> 0 <= w * k && w * k + w <= |r| && r[w * k..w * k + w] == table[s[k]].value
  {
    MapLength(s, table, w);
    forall k | 0 <= k < |s|
      ensures 0 <= w * k && w * k + w <= |MapSymbols(s, table).value|
      ensures MapSymbols(s, table).value[w * k..w * k + w] == table[s[k]].value
    {
      MapChunkAt(s, table, w, k);
    }
  }

  /** Helper for MapChunks: w characters per symbol. */
  lemma {:induction false} MapLength(s: seq<int>, table: seq<Option<string>>, w: nat)
    requires Uniform(table, w) && InRange(s, |table|)
    ensures |MapSymbols(s, table).value| == w * |s|
    decreases |s|
  {
    if s != [] {
      MapHead(s, table);
      MapLength(s[1..], table, w);
      ChunkCount(w, |s[1..]|);
    }
  }

  /** Helper for MapChunks: chunk k is the cell of symbol k. */
  lemma {:induction false} MapChunkAt(s: seq<int>, table: seq<Option<string>>, w: nat, k: nat)
    requires Uniform(table, w) && InRange(s, |table|) && k < |s|
    ensures var r := MapSymbols(s, table).value;
      0 <= w * k && w * k + w <= |r| && r[w * k..w * k + w] == table[s[k]].value
    decreases k
  {
    MapHead(s, table);
    MapLength(s, table, w);
    var rest := s[1..];
    var r := MapSymbols(s, table).value;
    var cell := CellString(table[s[0]]);
    if k == 0 {
      assert r[0..w] == cell;
    } else {
      var t := MapSymbols(rest, table).value;
      MapLength(rest, table, w);
      MapChunkAt(rest, table, w, k - 1);
      assert rest[k - 1] == s[k];
      ChunkShift(cell, t, w, k);
    }
  }

  /** Chunk k + 1 of cell + t is chunk k of t when the cell is one chunk wide. */
  lemma ChunkShift(cell: string, t: string, w: nat, k: nat)
    requires k >= 1 && |cell| == w && 0 <= w * (k - 1) && w * (k - 1) + w <= |t|
    ensures 0 <= w * k && w * k + w <= |cell + t|
    ensures (cell + t)[w * k..w * k + w] == t[w * (k - 1)..w * (k - 1) + w]
  {
    assert w * k == w + w * (k - 1);
  }

  /** One more symbol is one more chunk. */
  lemma ChunkCount(w: nat, n: nat)
    ensures w * (n + 1) == w + w * n
  {
  }

  /** With distinct cells of one non-zero width the mapping can be undone:
      two symbol streams that map to the same bits are the same stream. */
  lemma {:induction false} MapInjective(s: seq<int>, t: seq<int>, table: seq<Option<string>>, w: nat)
    requires Uniform(table, w) && w >= 1 && Distinct(table)
    requires InRange(s, |table|) && InRange(t, |table|)
    requires MapSymbols(s, table) == MapSymbols(t, table)
    ensures s == t
    decreases |s|
  {
    if s != [] && t != [] {
      MapHead(s, table);
      MapHead(t, table);
      var cs, ct := CellString(table[s[0]]), CellString(table[t[0]]);
      var rs, rt := MapSymbols(s[1..], table).value, MapSymbols(t[1..], table).value;
      CellWidth(table, w, s[0]);
      CellWidth(table, w, t[0]);
      SplitEqual(cs, rs, ct, rt);
      SameCell(table, w, s[0], t[0]);
      MapInjective(s[1..], t[1..], table, w);
      assert s == [s[0]] + s[1..] && t == [t[0]] + t[1..];
    }
  }

  /** Two concatenations with heads of one length are equal piece by piece. */
  lemma SplitEqual(a: string, b: string, c: string, d: string)
    requires |a| == |c| && a + b == c + d
    ensures a == c && b == d
  {
    assert a == (a + b)[..|a|] && c == (c + d)[..|c|];
    assert b == (a + b)[|a|..] && d == (c + d)[|c|..];
  }

  /** In a uniform table every row's cell has the common width. */
  lemma CellWidth(table: seq<Option<string>>, w: nat, i: int)
    requires Uniform(table, w) && 0 <= i < |table|
    ensures |CellString(table[i])| == w
  {
  }

  /** Rows with the same cell are the same row. */
  lemma SameCell(table: seq<Option<string>>, w: nat, i: int, j: int)
    requires Uniform(table, w) && Distinct(table)
    requires 0 <= i < |table| && 0 <= j < |table|
    requires CellString(table[i]) == CellString(table[j])
    ensures i == j && CellString(table[i]) == table[i].value
  {
    assert table[i].Some? && table[j].Some?;
    assert table[i] == table[j];
  }

  /** A non-empty mappable stream maps to the cell of its first symbol
      followed by the bits of the rest, which is mappable too. */
  lemma MapHead(s: seq<int>, table: seq<Option<string>>)
    requires InRange(s, |table|) && s != []
    ensures InRange(s[1..], |table|)
    ensures MapSymbols(s, table).value == CellString(table[s[0]]) + MapSymbols(s[1..], table).value
  {
    assert forall i :: 0 <= i < |s[1..]| ==> s[1..][i] == s[i + 1];
  }

  /** The table column as cells that are all present. */
  function Filled(cells: seq<string>): (t: seq<Option<string>>)
    ensures |t| == |cells|
  {
    seq(|cells|, i requires 0 <= i < |cells| => Some(cells[i]))
  }

  /** The width of every preset cell: BitsPerSymbol(rows) digits, but at
      least one digit. */
  function PresetWidth(rows: nat): (w: nat)
    requires rows >= 1
    ensures w >= 1
  {
    if rows >= 2 then BitsPerSymbol(rows) else 1
  }

  /** A preset table is uniform and distinct, so the symbols can be read
      back from the bits of an in-range stream. */
  lemma PresetDecodable(mode: Preset, rows: nat, s: seq<int>, t: seq<int>)
    requires rows >= 1 && InRange(s, rows) && InRange(t, rows)
    requires MapSymbols(s, Filled(PresetTable(mode, rows))) == MapSymbols(t, Filled(PresetTable(mode, rows)))
    ensures s == t
  {
    var table := Filled(PresetTable(mode, rows));
    var w := PresetWidth(rows);
    forall i | 0 <= i < rows ensures table[i].Some? && |table[i].value| == w {
      PresetCells(mode, rows, i);
    }
    forall i, j | 0 <= i < j < rows ensures table[i] != table[j] {
      PresetDistinct(mode, rows, i, j);
    }
    MapInjective(s, t, table, w);
  }

  /** The editor text apply_mapping produces: the mapped bits, passed
      through the Manchester decoder when a Manchester code is selected. */
  function RenderBits(symbols: seq<int>, table: seq<Option<string>>, diff: bool, invert: bool, enc: Encoding): (r: Result<string>)
    requires |table| >= 1
    ensures r.Ok? <==> InRange(Processed(symbols, |table|, diff, invert), |table|)
    ensures diff || InRange(symbols, |table|) ==> r.Ok?
  {
    match MapSymbols(Processed(symbols, |table|, diff, invert), table)
    case Err(m) => Err(m)
    case Ok(bits) => Ok(if enc == Nrz then bits else ManchesterDecode(bits, Scheme(enc)))
  }

  /** The computation of apply_mapping: process the symbols, join their
      cells and run the selected Manchester decoder over the result. */
  method Render(symbols: seq<int>, table: seq<Option<string>>, diff: bool, invert: bool, enc: Encoding) returns (r: Result<string>)
    requires |table| >= 1
    ensures r == RenderBits(symbols, table, diff, invert, enc)
  {
    var processed := Processed(symbols, |table|, diff, invert);
    var mapped := MapSymbols(processed, table);
    if mapped.Err? {
      return Err(mapped.msg);
    }
    var bits := mapped.value;
    if enc != Nrz {
      bits := DecodeManchesterString(bits, Scheme(enc));
    }
    return Ok(bits);
  }

  /** NRZ-I: with two levels, the binary preset and the differential option,
      the first bit is the placeholder '0' and every later bit is '1'
      exactly when the symbol differs from the one before it. */
  lemma NrziMarksChanges(symbols: seq<int>, k: nat)
    requires InRange(symbols, 2) && k < |symbols|
    ensures var r := RenderBits(symbols, Filled(PresetTable(Binary, 2)), true, false, Nrz);
      && r.Ok? && |r.value| == |symbols|
      && r.value[k] == (if k > 0 && symbols[k] != symbols[k - 1] then '1' else '0')
  {
    var table := Filled(PresetTable(Binary, 2));
    BinaryPresetTwo();
    var p := DecodeDifferential(symbols, 2);
    assert Processed(symbols, 2, true, false) == p;
    MapChunks(p, table, 1);
    var r := MapSymbols(p, table).value;
    assert RenderBits(symbols, table, true, false, Nrz) == Ok(r);
    assert r[k..k + 1] == table[p[k]].value;
    assert r[k] == r[k..k + 1][0];
    DifferentialBit(symbols, k);
  }

  /** The binary preset for two levels maps 0 to "0" and 1 to "1". */
  lemma BinaryPresetTwo()
    ensures Filled(PresetTable(Binary, 2)) == [Some("0"), Some("1")]
  {
    var n := BitsPerSymbol(2);
    assert n == 1 by {
      assert Pow(2, 1) == 2 * Pow(2, 0);
    }
    assert FormatBin(0, 1) == "0" && FormatBin(1, 1) == "1";
    assert PresetTable(Binary, 2)[0] == FormatBin(0, n);
    assert PresetTable(Binary, 2)[1] == FormatBin(1, n);
  }

  /** With two levels the differential decoder outputs 1 exactly at a
      change of symbol. */
  lemma DifferentialBit(symbols: seq<int>, k: nat)
    requires InRange(symbols, 2) && k < |symbols|
    ensures DecodeDifferential(symbols, 2)[k] == (if k > 0 && symbols[k] != symbols[k - 1] then 1 else 0)
  {
    if k > 0 {
      assert DecodeDifferential(symbols, 2)[k] == (symbols[k] - symbols[k - 1]) % 2;
    }
  }

  // ---------------------------------------------------------- load_input

  /** np.max of a non-empty stream. */
  function MaxSymbol(s: seq<int>): (m: int)
    requires |s| > 0
    ensures forall k :: 0 <= k < |s| ==> s[k] <= m
    ensures exists k :: 0 <= k < |s| && s[k] == m
    decreases |s|
  {
    if |s| == 1 then s[0]
    else
      var rest := MaxSymbol(s[1..]);
      assert forall k :: 1 <= k < |s| ==> s[k] == s[1..][k - 1];
      if s[0] >= rest then s[0] else rest
  }

  /** max_sym in load_input: the largest symbol, or 1 for an empty stream. */
  function MaxLevel(s: seq<int>): (m: nat)
    requires forall k :: 0 <= k < |s| ==> s[k] >= 0
    ensures InRange(s, m + 1)
    ensures |s| > 0 ==> exists k :: 0 <= k < |s| && s[k] == m
    ensures |s| == 0 ==> m == 1
  {
    if |s| > 0 then MaxSymbol(s) else 1
  }

  /** The mapping column after load_input: setRowCount(maxSym + 1) keeps the
      cells of the rows that stay and adds empty rows; every row still
      without a cell then gets its default binary code. */
  function LoadedTable(table: seq<Option<string>>, maxSym: nat): (t: seq<Option<string>>)
    ensures |t| == maxSym + 1
    ensures forall i :: 0 <= i < |t| ==> t[i].Some?
  {
    seq(maxSym + 1, i requires 0 <= i <= maxSym =>
      if i < |table| && table[i].Some? then table[i] else Some(DefaultCell(maxSym, i)))
  }

  /** The table loop of load_input: resize the column to maxSym + 1 rows,
      then give every row without a cell its default code. */
  method FillTable(kept: seq<Option<string>>, maxSym: nat) returns (table: seq<Option<string>>)
    ensures table == LoadedTable(kept, maxSym)
  {
    table := seq(maxSym + 1, i requires 0 <= i <= maxSym => if i < |kept| then kept[i] else None);
    ghost var resized := table;
    ghost var loaded := LoadedTable(kept, maxSym);
    var i := 0;
    while i <= maxSym
      invariant 0 <= i <= maxSym + 1 && |table| == maxSym + 1
      invariant forall j :: 0 <= j < i ==> table[j] == loaded[j]
      invariant forall j :: i <= j <= maxSym ==> table[j] == resized[j]
    {
      if table[i].None? {
        table := table[i := Some(DefaultCell(maxSym, i))];
      }
      i := i + 1;
    }
  }

  /** Loading keeps every cell the user has already filled in, among the
      rows that stay. */
  lemma LoadKeepsCells(table: seq<Option<string>>, maxSym: nat, i: nat)
    requires i < |table| && i <= maxSym && table[i].Some?
    ensures LoadedTable(table, maxSym)[i] == table[i]
  {
  }

  /** The first load into an empty table gives the binary preset. */
  lemma FreshLoadIsBinary(maxSym: nat)
    ensures LoadedTable([], maxSym) == Filled(PresetTable(Binary, maxSym + 1))
  {
    forall i | 0 <= i <= maxSym
      ensures LoadedTable([], maxSym)[i] == Filled(PresetTable(Binary, maxSym + 1))[i]
    {
      DefaultIsBinary(maxSym, i);
    }
  }

  // --------------------------------------------------------- text cursor

  /** A QTextCursor: the anchor and the position. */
  datatype Cursor = Cursor(anchor: nat, position: nat) {
    predicate HasSelection() {
      anchor != position
    }

    function SelectionStart(): nat {
      if anchor <= position then anchor else position
    }

    /** Where find_pattern searches from: the end of the selection, or the
        position. */
    function SearchFrom(): nat {
      if HasSelection() && anchor > position then anchor else position
    }
  }

  /** QTextCursor.setPosition on a text of n characters: positions outside
      [0, n] are refused and leave the cursor as it was; MoveAnchor moves
      both ends, KeepAnchor only the position. */
  function SetPosition(c: Cursor, p: int, keepAnchor: bool, n: nat): Cursor {
    if p < 0 || p > n then c
    else if keepAnchor then Cursor(c.anchor, p)
    else Cursor(p, p)
  }

  /** The selection idiom of the tab: setPosition(hi), then setPosition(lo)
      keeping the anchor. */
  function Select(c: Cursor, lo: int, hi: int, n: nat): Cursor {
    SetPosition(SetPosition(c, hi, false, n), lo, true, n)
  }

  /** A range inside the text becomes exactly the selection [lo, hi), the
      position at its start; a range past the end moves only the position,
      or nothing. */
  lemma SelectRange(c: Cursor, lo: int, hi: int, n: nat)
    requires 0 <= lo <= hi
    ensures var d := Select(c, lo, hi, n);
      && (hi <= n ==> d == Cursor(hi, lo) && d.SelectionStart() == lo && d.SearchFrom() == hi)
      && (lo <= n < hi ==> d == Cursor(c.anchor, lo))
      && (n < lo ==> d == c)
  {
  }

  // ---------------------------------------------------------- hex table

  /** The hex table's current cell after sync_highlight_to_hex: the cell of
      the byte under the cursor when that row exists, the old one otherwise. */
  function HighlightedCell(position: nat, nBytes: nat, previous: Option<(nat, nat)>): Option<(nat, nat)> {
    var cell := CellOf(position / 8);
    if cell.0 < HexRows(nBytes) then Some(cell) else previous
  }

  /** Clicking the cell of byte b selects its eight bits when they lie in
      the text, and the cursor then sits in that very cell: the two sync
      directions agree. */
  lemma ClickRoundTrip(c: Cursor, row: nat, col: nat, n: nat)
    requires 1 <= col <= 16
    ensures var b := ByteAt(row, col);
      var d := Select(c, 8 * b, 8 * b + 8, n);
      && (8 * b + 8 <= n ==> d == Cursor(8 * b + 8, 8 * b))
      && (8 * b <= n ==> CellOf(d.position / 8) == (row, col))
  {
    var b := ByteAt(row, col);
    SelectRange(c, 8 * b, 8 * b + 8, n);
    assert 8 * b / 8 == b;
    CellRoundTrip(b, row, col, 0);
  }

  /** A cursor on a bit of the packed data sits in a row of the hex table. */
  lemma CursorRowExists(text: string, position: nat)
    requires position / 8 < |HexBytes(text)|
    ensures HighlightedCell(position, |HexBytes(text)|, None) == Some(CellOf(position / 8))
  {
    CellRoundTrip(position / 8, 0, 1, |HexBytes(text)|);
  }

  /** For a plain bit string the byte in hex cell b is the value of bits
      [8b, 8b+8) of the editor: the bits a click on that cell selects. */
  lemma SelectedBitsAreByte(text: string, b: nat)
    requires IsBinary(text) && 8 * b + 8 <= |text|
    ensures b < |HexBytes(text)| && HexBytes(text)[b] == BinValue(text[8 * b..8 * b + 8])
  {
    forall k | 0 <= k < |text| ensures text[k] !in {'\n', ' '} {
    }
    WithoutIdentity(text, {'\n', ' '});
    var p := Pad(text);
    PadBinary(text);
    PackBinary(p);
    assert p[8 * b..8 * b + 8] == text[8 * b..8 * b + 8] by {
      assert p[..|text|] == text;
      assert p[8 * b..8 * b + 8] == p[..|text|][8 * b..8 * b + 8];
    }
  }

  // ------------------------------------------------------------- search

  /** The search box after find_pattern's preprocessing. */
  datatype Query = Blank | InvalidHex | Bits(pattern: string)

  /** Spaces removed; an empty query does nothing; in hex mode every digit
      becomes four bits, and a non-digit is an invalid pattern. */
  function ParseQuery(query: string, hexMode: bool): (q: Query)
    ensures q.Bits? ==> q.pattern != []
    ensures q.Blank? <==> Without(query, {' '}) == []
  {
    var stripped := Without(query, {' '});
    if stripped == [] then Blank
    else if !hexMode then Bits(stripped)
    else match ExpandHexSpec(stripped)
      case None => InvalidHex
      case Some(bits) =>
        ExpandHexShape(stripped);
        Bits(bits)
  }

  /** The message boxes find_pattern may show. */
  datatype Notice = Quiet | InvalidHexWarning | NotFound

  /** find_pattern's effect on the editor cursor, with the message box it
      shows: the pattern is searched from the cursor, then from the start,
      and the match found becomes the selection. */
  function Search(text: string, c: Cursor, query: string, hexMode: bool): (Notice, Cursor) {
    match ParseQuery(query, hexMode)
    case Blank => (Quiet, c)
    case InvalidHex => (InvalidHexWarning, c)
    case Bits(p) =>
      var idx := FindWrapped(text, p, c.SearchFrom());
      if idx == -1 then (NotFound, c) else (Quiet, Select(c, idx, idx + |p|, |text|))
  }

  /** A search for a pattern selects a match exactly when the pattern occurs:
      the first one at or after the search start, or else the first one in
      the text. Not finding it changes nothing. */
  lemma SearchSelectsMatch(text: string, c: Cursor, query: string, hexMode: bool)
    requires ParseQuery(query, hexMode).Bits?
    ensures var p := ParseQuery(query, hexMode).pattern;
      var (notice, d) := Search(text, c, query, hexMode);
      && (notice == NotFound <==> forall i :: !MatchAt(text, p, i))
      && (notice == NotFound ==> d == c)
      && (notice != NotFound ==>
            && notice == Quiet
            && MatchAt(text, p, d.position)
            && d == Cursor(d.position + |p|, d.position)
            && d.HasSelection()
            && d.SearchFrom() > d.position
            && ((exists i :: c.SearchFrom() <= i && MatchAt(text, p, i)) ==>
                  c.SearchFrom() <= d.position && forall i :: c.SearchFrom() <= i < d.position ==> !MatchAt(text, p, i))
            && ((forall i :: c.SearchFrom() <= i ==> !MatchAt(text, p, i)) ==>
                  forall i :: 0 <= i < d.position ==> !MatchAt(text, p, i)))
  {
    var p := ParseQuery(query, hexMode).pattern;
    var idx := FindWrapped(text, p, c.SearchFrom());
    FindWrappedFinds(text, p, c.SearchFrom());
    if idx != -1 {
      SelectRange(c, idx, idx + |p|, |text|);
    }
  }

  /** In hex mode a query of digits searches for their four-bit groups. */
  lemma HexQueryBits(query: string)
    requires ParseQuery(query, true).Bits?
    ensures var digits := Without(query, {' '});
      var p := ParseQuery(query, true).pattern;
      && |p| == 4 * |digits|
      && IsBinary(p)
      && forall k :: 0 <= k < |digits| ==>
           HexDigitValue(digits[k]).Some? && BinValue(p[4 * k..4 * k + 4]) == HexDigitValue(digits[k]).value
  {
    ExpandHexShape(Without(query, {' '}));
  }

  /** The search of find_pattern on the editor's text and cursor: strips the
      spaces, expands hex digits, searches from the cursor and then from the
      start, and selects the match with the tab's setPosition idiom. */
  method SearchText(text: string, c: Cursor, query: string, hexMode: bool) returns (notice: Notice, d: Cursor)
    requires c.anchor <= |text| && c.position <= |text|
    ensures (notice, d) == Search(text, c, query, hexMode)
    ensures d.anchor <= |text| && d.position <= |text|
  {
    d := c;
    var q := ReadQuery(query, hexMode);
    if q.Blank? {
      return Quiet, d;
    } else if q.InvalidHex? {
      return InvalidHexWarning, d;
    }
    var pattern := q.pattern;
    var idx := FindFromCursor(text, pattern, c.SearchFrom());
    if idx == -1 {
      return NotFound, d;
    }
    d := SetPosition(d, idx + |pattern|, false, |text|);
    d := SetPosition(d, idx, true, |text|);
    notice := Quiet;
  }

  /** text.find(pattern, from), and text.find(pattern, 0) when that fails. */
  method FindFromCursor(text: string, pattern: string, from: nat) returns (idx: int)
    ensures idx == FindWrapped(text, pattern, from)
    ensures idx != -1 ==> 0 <= idx && idx + |pattern| <= |text|
  {
    idx := Find(text, pattern, from);
    if idx == -1 {
      idx := Find(text, pattern, 0);
    }
  }

  /** find_pattern's preprocessing of the search box: strips the spaces,
      stops on an empty query, and in hex mode expands the digits. */
  method ReadQuery(query: string, hexMode: bool) returns (q: Query)
    ensures q == ParseQuery(query, hexMode)
  {
    var pattern := Without(query, {' '});
    if pattern == [] {
      return Blank;
    }
    if hexMode {
      var expanded := ExpandHex(pattern);
      if expanded.None? {
        return InvalidHex;
      }
      pattern := expanded.value;
    }
    q := Bits(pattern);
  }

  // ---------------------------------------------------------------- export

  /** The two export buttons. */
  datatype Format = Txt | Bin

  /** What export_data writes, once a file name is chosen. */
  datatype FileContents = TextFile(chars: string) | BinaryFile(bytes: seq<nat>)

  // ------------------------------------------------------------ the tab

  class InspectorTab {
    /** local_symbols: the stream last loaded, None before the first load. */
    var symbols: Option<seq<int>>
    /** Column 1 of the mapping table: one entry per row, None for a row
        without an item. */
    var table: seq<Option<string>>
    /** The "Differential (NRZ-I)" and "Invert Symbols" check boxes. */
    var diff: bool
    var invert: bool
    /** The line-code combo box. */
    var encoding: Encoding
    /** The bit editor's plain text and cursor. */
    var text: string
    var cursor: Cursor
    /** The bytes the hex table shows (its rows are HexTable(hexBytes)). */
    var hexBytes: seq<nat>
    /** The hex table's current cell. */
    var current: Option<(nat, nat)>

    /** The cursor is inside the text, the hex table shows the editor's
        bytes, and loaded symbols come with at least one table row. */
    ghost predicate Valid()
      reads this`symbols, this`table, this`text, this`cursor, this`hexBytes
    {
      && (symbols.Some? ==> |table| >= 1)
      && cursor.anchor <= |text| && cursor.position <= |text|
      && hexBytes == HexBytes(text)
    }

    /** Every loaded symbol has a row in the mapping table. */
    ghost predicate Mappable()
      reads this`symbols, this`table
    {
      symbols.Some? ==> InRange(symbols.value, |table|)
    }

    /** The tab as init_ui leaves it: nothing loaded, empty table and
        editor, all options off. */
    constructor ()
      ensures Valid() && Mappable()
      ensures symbols.None? && table == [] && !diff && !invert && encoding == Nrz
      ensures text == [] && cursor == Cursor(0, 0) && hexBytes == [] && current.None?
    {
      symbols := None;
      table := [];
      diff, invert := false, false;
      encoding := Nrz;
      text := [];
      cursor := Cursor(0, 0);
      current := None;
      assert Pad([]) == [];
      hexBytes := [];
    }

    /** What apply_mapping puts in the editor under the current settings:
        None when nothing is loaded. */
    function Rendering(): Option<Result<string>>
      reads this`symbols, this`table, this`diff, this`invert, this`encoding
      requires symbols.Some? ==> |table| >= 1
    {
      if symbols.None? then None else Some(RenderBits(symbols.value, table, diff, invert, encoding))
    }

    /** The editor after apply_mapping, given its text and cursor before the
        call and what the call raised: unchanged when nothing is loaded or
        the join raises, otherwise the rendered bits with the cursor at the
        start (setPlainText). */
    ghost predicate Refreshed(text0: string, cursor0: Cursor, raised: Option<string>)
      reads this`symbols, this`table, this`diff, this`invert, this`encoding, this`text, this`cursor
      requires symbols.Some? ==> |table| >= 1
    {
      match Rendering()
      case None => raised.None? && text == text0 && cursor == cursor0
      case Some(Err(m)) => raised == Some(m) && text == text0 && cursor == cursor0
      case Some(Ok(bits)) => raised.None? && text == bits && cursor == Cursor(0, 0)
    }

    /** update_hex_view: repacks the editor text into the bytes of the hex
        table. */
    method UpdateHexView()
      modifies this`hexBytes
      ensures hexBytes == HexBytes(text)
    {
      hexBytes := PackBytes(text);
    }

    /** apply_mapping: renders the loaded symbols into the editor with the
        editor's signals blocked, then refreshes the hex view. It cannot
        raise while every symbol has a row. */
    method ApplyMapping() returns (raised: Option<string>)
      requires Valid()
      modifies this`text, this`cursor, this`hexBytes
      ensures Valid()
      ensures Refreshed(old(text), old(cursor), raised)
      ensures Mappable() ==> raised.None?
    {
      if symbols.None? {
        return None;
      }
      var rendered := Render(symbols.value, table, diff, invert, encoding);
      if rendered.Err? {
        return Some(rendered.msg);
      }
      ShowBits(rendered.value);
      raised := None;
    }

    /** setPlainText with the editor's signals blocked, followed by
        update_hex_view: the editor holds the bits, the cursor is at the
        start and the hex table shows the bits' bytes. */
    method ShowBits(bits: string)
      modifies this`text, this`cursor, this`hexBytes
      ensures text == bits && cursor == Cursor(0, 0) && hexBytes == HexBytes(bits)
    {
      text := bits;
      cursor := Cursor(0, 0);
      UpdateHexView();
    }

    /** A change of the differential or invert check box or of the line
        code: the setting changes and apply_mapping runs. */
    method SetLogic(newDiff: bool, newInvert: bool, newEncoding: Encoding) returns (raised: Option<string>)
      requires Valid()
      modifies this`diff, this`invert, this`encoding, this`text, this`cursor, this`hexBytes
      ensures Valid()
      ensures diff == newDiff && invert == newInvert && encoding == newEncoding
      ensures Refreshed(old(text), old(cursor), raised)
      ensures Mappable() || newDiff ==> raised.None?
    {
      diff, invert, encoding := newDiff, newInvert, newEncoding;
      raised := ApplyMapping();
    }

    /** load_input: takes the context's symbols, sizes the mapping table to
        the largest symbol, fills empty rows with the default binary code and
        applies the mapping. Symbols come from the slicer, which produces
        non-negative levels. */
    method LoadInput(input: Option<seq<int>>) returns (success: bool, msg: string)
      requires Valid()
      requires input.Some? ==> forall k :: 0 <= k < |input.value| ==> input.value[k] >= 0
      modifies this`symbols, this`table, this`text, this`cursor, this`hexBytes
      ensures Valid()
      ensures input.None? ==> !success && msg == "No symbols in context." && unchanged(this)
      ensures input.Some? ==>
        && success
        && msg == "Loaded " + Digits(|input.value|, 10) + " symbols."
        && symbols == input
        && table == LoadedTable(old(table), MaxLevel(input.value))
        && Mappable()
        && Refreshed(old(text), old(cursor), None)
    {
      if input.None? {
        return false, "No symbols in context.";
      }
      var s := input.value;
      symbols := input;
      var maxSym := MaxLevel(s);
      table := FillTable(table, maxSym);
      var raised := ApplyMapping();
      success := true;
      msg := "Loaded " + Digits(|s|, 10) + " symbols.";
    }

    /** set_mapping_preset: rewrites every row with the preset code at
        ceil(log2(rows)) bits and applies the mapping. With no rows log2(0)
        is -inf and int() raises before anything changes. */
    method SetMappingPreset(mode: Preset) returns (raised: Option<string>)
      requires Valid()
      modifies this`table, this`text, this`cursor, this`hexBytes
      ensures Valid()
      ensures |table| == old(|table|)
      ensures old(|table|) == 0 ==> raised == Some("cannot convert float infinity to integer") && unchanged(this)
      ensures old(|table|) >= 1 ==>
        && table == Filled(PresetTable(mode, |table|))
        && Refreshed(old(text), old(cursor), raised)
        && (Mappable() ==> raised.None?)
    {
      var rows := |table|;
      if rows == 0 {
        return Some("cannot convert float infinity to integer");
      }
      var bitsPerSym := BitsPerSymbol(rows);
      var i := 0;
      while i < rows
        invariant 0 <= i <= rows && |table| == rows
        invariant forall j :: 0 <= j < i ==> table[j] == Some(FormatBin(Code(mode, j), bitsPerSym))
        invariant symbols == old(symbols) && text == old(text) && cursor == old(cursor) && hexBytes == old(hexBytes)
      {
        var val := if mode == Binary then i else Xor(i, i / 2);
        table := table[i := Some(FormatBin(val, bitsPerSym))];
        i := i + 1;
      }
      assert table == Filled(PresetTable(mode, rows));
      raised := ApplyMapping();
    }

    /** sync_highlight_to_hex: makes the cell of the byte under the cursor
        current, when the table has that row. */
    method SyncHighlightToHex()
      requires Valid()
      modifies this`current
      ensures current == HighlightedCell(cursor.position, |hexBytes|, old(current))
    {
      var pos := cursor.position;
      var byteIdx := pos / 8;
      var row := byteIdx / 16;
      var col := byteIdx % 16 + 1;
      if row < HexRows(|hexBytes|) {
        current := Some((row, col));
      }
    }

    /** sync_highlight_to_bits: a click on a byte cell selects that byte's
        eight bits in the editor (signals blocked); clicks on the offset or
        ASCII column are ignored. */
    method SyncHighlightToBits(row: nat, col: int)
      requires Valid()
      modifies this`cursor
      ensures Valid()
      ensures !(1 <= col <= 16) ==> cursor == old(cursor)
      ensures 1 <= col <= 16 ==>
        var bitStart := 8 * ByteAt(row, col);
        cursor == Select(old(cursor), bitStart, bitStart + 8, |text|)
    {
      if col < 1 || col > 16 {
        return;
      }
      var byteIdx := row * 16 + (col - 1);
      var bitStart := byteIdx * 8;
      var bitEnd := bitStart + 8;
      var c := SetPosition(cursor, bitEnd, false, |text|);
      c := SetPosition(c, bitStart, true, |text|);
      cursor := c;
    }

    /** find_pattern: searches the editor for the query from the cursor,
        wrapping to the start once, and selects the match; when the cursor's
        position moves, the position-changed signal syncs the hex table. */
    method FindPattern(query: string, hexMode: bool) returns (notice: Notice)
      requires Valid()
      modifies this`cursor, this`current
      ensures Valid()
      ensures (notice, cursor) == Search(text, old(cursor), query, hexMode)
      ensures cursor.position != old(cursor.position) ==> current == HighlightedCell(cursor.position, |hexBytes|, old(current))
      ensures cursor.position == old(cursor.position) ==> current == old(current)
    {
      var c: Cursor;
      notice, c := SearchText(text, cursor, query, hexMode);
      var moved := c.position != cursor.position;
      cursor := c;
      if moved {
        SyncHighlightToHex();
      }
    }

    /** align_pattern: without a selection, runs find_pattern first; then
        cuts every bit before the selection. The new text resets the cursor
        and refreshes the hex table, and the cursor's move syncs it. */
    method AlignPattern(query: string, hexMode: bool) returns (notice: Notice)
      requires Valid()
      modifies this`text, this`cursor, this`hexBytes, this`current
      ensures Valid()
      ensures var sel := if old(cursor).HasSelection() then old(cursor) else Search(old(text), old(cursor), query, hexMode).1;
        && notice == (if old(cursor).HasSelection() then Quiet else Search(old(text), old(cursor), query, hexMode).0)
        && (sel.HasSelection() && sel.SelectionStart() > 0 ==>
              && text == old(text)[sel.SelectionStart()..]
              && cursor == Cursor(0, 0)
              && (HexRows(|hexBytes|) > 0 ==> current == Some((0, 1))))
        && (!(sel.HasSelection() && sel.SelectionStart() > 0) ==>
              && text == old(text) && cursor == sel && hexBytes == old(hexBytes)
              && current == (if cursor.position != old(cursor).position
                             then HighlightedCell(cursor.position, |hexBytes|, old(current))
                             else old(current)))
    {
      notice := Quiet;
      if !cursor.HasSelection() {
        notice := FindPattern(query, hexMode);
      }
      if cursor.HasSelection() {
        var start := cursor.SelectionStart();
        if start > 0 {
          CutBefore(start);
        }
      }
    }

    /** The cut of align_pattern: setPlainText with the bits from `start`
        on (the cursor goes to the start), the hex view follows the text
        change and the cursor's move makes the first cell current. */
    method CutBefore(start: nat)
      requires Valid() && start <= |text|
      modifies this`text, this`cursor, this`hexBytes, this`current
      ensures Valid()
      ensures text == old(text)[start..] && cursor == Cursor(0, 0)
      ensures HexRows(|hexBytes|) > 0 ==> current == Some((0, 1))
    {
      ShowBits(text[start..]);
      assert CellOf(0 / 8) == (0, 1);
      SyncHighlightToHex();
    }

    /** export_data after a file name is chosen: the text without newlines
        for .txt; for .bin the padded bytes, or the error int() raises on a
        chunk that is not binary. */
    method ExportData(format: Format) returns (r: Result<FileContents>)
      ensures format == Txt ==> r == Ok(TextFile(ExportText(text)))
      ensures format == Bin ==> (r.Ok? <==> IsBinary(ExportText(text)))
      ensures format == Bin && r.Ok? ==>
        && r.value.BinaryFile?
        && |r.value.bytes| == (|ExportText(text)| + 7) / 8
        && |ExportText(text)| <= |Unpack(r.value.bytes)|
        && Unpack(r.value.bytes)[..|ExportText(text)|] == ExportText(text)
    {
      if format == Txt {
        return Ok(TextFile(ExportText(text)));
      }
      var packed := ExportBin(text);
      ExportRoundTrip(text);
      if packed.Err? {
        return Err(packed.msg);
      }
      r := Ok(BinaryFile(packed.value));
    }
  }
}
