/** The symbol-to-bits mapping presets of the Inspector
    (set_mapping_preset and the default map of load_input in
    tabs/inspector_tab.py): every symbol level i gets a fixed-width binary
    code, either i itself or its reflected Gray code i ^ (i >> 1). */
module MappingPresets {
  import opened LineDecoder
  import opened BitStream

  /** The two preset buttons. */
  datatype Preset = Binary | Gray

  /** int(np.ceil(np.log2(rows))) for rows >= 1: the number of bits that
      distinguishes `rows` levels, i.e. the least n with 2^n >= rows. */
  function BitsPerSymbol(rows: nat): (n: nat)
    requires rows >= 1
    ensures Pow(2, n) >= rows
    ensures n == 0 || Pow(2, n - 1) < rows
    decreases rows
  {
    if rows <= 1 then 0
    else
      var half := (rows + 1) / 2;
      var m := BitsPerSymbol(half);
      assert m == 0 || Pow(2, m) == 2 * Pow(2, m - 1);
      1 + m
  }

  /** Python's a ^ b on non-negative integers: bit by bit, exclusive or. */
  function Xor(a: nat, b: nat): nat
    decreases a + b
  {
    if a == 0 && b == 0 then 0
    else 2 * Xor(a / 2, b / 2) + (a % 2 + b % 2) % 2
  }

  /** The reflected Gray code i ^ (i >> 1). */
  function GrayCode(i: nat): nat {
    Xor(i, i / 2)
  }

  /** Number of one bits. */
  function Popcount(x: nat): nat {
    if x == 0 then 0 else x % 2 + Popcount(x / 2)
  }

  /** The value a preset assigns to level i. */
  function Code(mode: Preset, i: nat): nat {
    match mode
    case Binary => i
    case Gray => GrayCode(i)
  }

  /** The table column set_mapping_preset writes: level i gets its code in
      binary, zero-padded to BitsPerSymbol(rows) digits. */
  function PresetTable(mode: Preset, rows: nat): (cells: seq<string>)
    requires rows >= 1
    ensures |cells| == rows
  {
    seq(rows, i requires 0 <= i < rows => FormatBin(Code(mode, i), BitsPerSymbol(rows)))
  }

  /** The cell load_input puts in an empty row i when the largest symbol is
      maxSym: i in binary, zero-padded to ceil(log2(maxSym + 1)) digits. */
  function DefaultCell(maxSym: nat, i: nat): string {
    FormatBin(i, BitsPerSymbol(maxSym + 1))
  }

  // -------------------------------------------------------------- xor facts

  /** Every Xor splits into its lowest bit and the Xor of the halves. */
  lemma XorSplit(a: nat, b: nat)
    ensures Xor(a, b) == 2 * Xor(a / 2, b / 2) + (a % 2 + b % 2) % 2
  {
  }

  lemma {:induction false} XorSelf(a: nat)
    ensures Xor(a, a) == 0
    decreases a
  {
    if a != 0 {
      XorSelf(a / 2);
    }
  }

  /** Exclusive or of two n-bit numbers is an n-bit number. */
  lemma {:induction false} XorBelow(a: nat, b: nat, n: nat)
    requires a < Pow(2, n) && b < Pow(2, n)
    ensures Xor(a, b) < Pow(2, n)
    decreases n
  {
    if n > 0 && !(a == 0 && b == 0) {
      assert Pow(2, n) == 2 * Pow(2, n - 1);
      XorBelow(a / 2, b / 2, n - 1);
    }
  }

  /** Xor of two numbers given by their halves and low bits. */
  lemma XorLow(x: nat, y: nat, c: nat, d: nat)
    requires c < 2 && d < 2
    ensures Xor(2 * x + c, 2 * y + d) == 2 * Xor(x, y) + (c + d) % 2
  {
    assert (2 * x + c) / 2 == x && (2 * x + c) % 2 == c;
    assert (2 * y + d) / 2 == y && (2 * y + d) % 2 == d;
    XorSplit(2 * x + c, 2 * y + d);
  }

  lemma PopcountDouble(y: nat)
    ensures Popcount(2 * y) == Popcount(y)
  {
  }

  /** Gray code of 2q + b: the Gray code of q shifted up, with the low bit
      b xor (q mod 2). */
  lemma GrayStep(q: nat, b: nat)
    requires b < 2
    ensures GrayCode(2 * q + b) == 2 * GrayCode(q) + (b + q % 2) % 2
  {
    assert (2 * q + b) / 2 == q;
    XorSplit(2 * q + b, q);
  }

  // --------------------------------------------------------- gray properties

  /** Gray codes of n-bit levels are n-bit codes. */
  lemma GrayBelow(i: nat, n: nat)
    requires i < Pow(2, n)
    ensures GrayCode(i) < Pow(2, n)
  {
    XorBelow(i, i / 2, n);
  }

  /** Distinct levels get distinct Gray codes. */
  lemma {:induction false} GrayInjective(i: nat, j: nat)
    requires i != j
    ensures GrayCode(i) != GrayCode(j)
    decreases i + j
  {
    var qi, qj := i / 2, j / 2;
    var li, lj := (i % 2 + qi % 2) % 2, (j % 2 + qj % 2) % 2;
    GrayHalf(i);
    GrayHalf(j);
    if qi != qj {
      GrayInjective(qi, qj);
      CodesApart(GrayCode(qi), GrayCode(qj), li, lj);
    } else {
      LowBitsDiffer(i % 2, j % 2, qi % 2);
    }
  }

  /** The Gray code of i from the Gray code of i / 2 and the low bit. */
  lemma GrayHalf(i: nat)
    ensures GrayCode(i) == 2 * GrayCode(i / 2) + (i % 2 + (i / 2) % 2) % 2
  {
    GrayStep(i / 2, i % 2);
  }

  /** Different low bits stay different after xor with the same bit. */
  lemma LowBitsDiffer(b: nat, c: nat, q: nat)
    requires b < 2 && c < 2 && q < 2 && b != c
    ensures (b + q) % 2 != (c + q) % 2
  {
  }

  /** Two codes with different upper parts differ, whatever their low bits. */
  lemma CodesApart(x: nat, y: nat, c: nat, d: nat)
    requires x != y && c < 2 && d < 2
    ensures 2 * x + c != 2 * y + d
  {
  }

  /** From an even level to the next only the low bit of the code flips. */
  lemma GrayFromEven(q: nat)
    ensures Xor(GrayCode(2 * q), GrayCode(2 * q + 1)) == 1
  {
    var g := GrayCode(q);
    var c0, c1 := (0 + q % 2) % 2, (1 + q % 2) % 2;
    GrayStep(q, 0);
    GrayStep(q, 1);
    LowBitsDiffer(0, 1, q % 2);
    XorSameHigh(g, c0, c1);
  }

  /** Two numbers with the same upper part xor to the xor of their low bits. */
  lemma XorSameHigh(g: nat, c: nat, d: nat)
    requires c < 2 && d < 2
    ensures Xor(2 * g + c, 2 * g + d) == (c + d) % 2
  {
    XorLow(g, g, c, d);
    XorSelf(g);
  }

  /** From an odd level to the next the low bits agree and the rest is the
      step from q to q + 1. */
  lemma GrayFromOdd(q: nat)
    ensures Xor(GrayCode(2 * q + 1), GrayCode(2 * q + 2)) == 2 * Xor(GrayCode(q), GrayCode(q + 1))
  {
    var g, h := GrayCode(q), GrayCode(q + 1);
    var c := (1 + q % 2) % 2;
    assert c == (q + 1) % 2;
    GrayStep(q, 1);
    GrayStep(q + 1, 0);
    assert GrayCode(2 * q + 1) == 2 * g + c;
    assert GrayCode(2 * q + 2) == 2 * h + c;
    XorLow(g, h, c, c);
  }

  /** Consecutive levels get Gray codes that differ in exactly one bit. */
  lemma {:induction false} GrayAdjacent(i: nat)
    ensures Popcount(Xor(GrayCode(i), GrayCode(i + 1))) == 1
    decreases i
  {
    var q := i / 2;
    if i % 2 == 0 {
      assert i == 2 * q && i + 1 == 2 * q + 1;
      GrayFromEven(q);
      assert Popcount(1) == 1;
    } else {
      assert i == 2 * q + 1 && i + 1 == 2 * q + 2;
      var x := Xor(GrayCode(q), GrayCode(q + 1));
      GrayFromOdd(q);
      GrayAdjacent(q);
      PopcountDouble(x);
      assert Xor(GrayCode(i), GrayCode(i + 1)) == 2 * x;
    }
  }

  // ------------------------------------------------------- preset properties

  /** With two or more rows every cell of a preset is BitsPerSymbol(rows)
      binary digits and reads back (int(cell, 2)) as the level's code; a
      single row gets the cell "0". */
  lemma PresetCells(mode: Preset, rows: nat, i: nat)
    requires rows >= 1 && i < rows
    ensures var cell := PresetTable(mode, rows)[i];
      && IsBinary(cell) && BinValue(cell) == Code(mode, i)
      && (rows >= 2 ==> |cell| == BitsPerSymbol(rows))
      && (rows == 1 ==> cell == "0")
  {
    var n := BitsPerSymbol(rows);
    var code := Code(mode, i);
    assert PresetTable(mode, rows)[i] == FormatBin(code, n);
    FormatBinValue(code, n);
    if rows >= 2 {
      CodeBelow(mode, i, n);
      FormatFixedLength(code, n, 2);
    } else {
      assert code == 0 && n == 0;
      assert DigitChar(0) == '0';
    }
  }

  /** Codes of n-bit levels are n-bit codes, for both presets. */
  lemma CodeBelow(mode: Preset, i: nat, n: nat)
    requires i < Pow(2, n)
    ensures Code(mode, i) < Pow(2, n)
  {
    if mode.Gray? {
      GrayBelow(i, n);
    }
  }

  /** The preset cells are pairwise different, so every bit pattern decodes
      to a single level. */
  lemma PresetDistinct(mode: Preset, rows: nat, i: nat, j: nat)
    requires rows >= 1 && i < rows && j < rows && i != j
    ensures PresetTable(mode, rows)[i] != PresetTable(mode, rows)[j]
  {
    PresetCells(mode, rows, i);
    PresetCells(mode, rows, j);
    if mode.Gray? {
      GrayInjective(i, j);
    }
  }

  /** The default map is the binary preset for maxSym + 1 rows. */
  lemma DefaultIsBinary(maxSym: nat, i: nat)
    requires i <= maxSym
    ensures DefaultCell(maxSym, i) == PresetTable(Binary, maxSym + 1)[i]
  {
  }
}
