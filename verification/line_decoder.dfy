/** The Line Decoder: symbol inversion, differential (NRZ-I) decoding and
    Manchester decoding of a bit string (utils/dsp_lib.py). Symbols are
    unbounded integers; the modulus is the number of symbol levels. */
module LineDecoder {
  import opened Arith

  /** Every symbol lies in [0, m-1]. */
  predicate InRange(s: seq<int>, m: int) {
    forall i :: 0 <= i < |s| ==> 0 <= s[i] < m
  }

  // ---------------------------------------------------------------- inversion

  /** invert_symbols: each symbol becomes (m-1) - s, the complement across
      the level range. */
  function InvertSymbols(s: seq<int>, m: int): (r: seq<int>)
    ensures |r| == |s|
    ensures forall i :: 0 <= i < |s| ==> (0 <= s[i] < m <==> 0 <= r[i] < m)
    ensures forall i :: 0 <= i < |s| ==> r[i] + s[i] == m - 1
  {
    seq(|s|, i requires 0 <= i < |s| => (m - 1) - s[i])
  }

  /** Inverting twice gives back the original stream. */
  lemma InvertInvolution(s: seq<int>, m: int)
    ensures InvertSymbols(InvertSymbols(s, m), m) == s
  {
  }

  // ---------------------------------------------------- differential decoding

  /** decode_differential: the first output is the placeholder 0; every later
      output is the difference from the predecessor, reduced modulo m with a
      non-negative remainder (numpy's mod for a positive modulus). */
  function DecodeDifferential(s: seq<int>, m: int): (r: seq<int>)
    requires m >= 1
    ensures |r| == |s|
    ensures |s| > 0 ==> r[0] == 0
    ensures InRange(r, m)
  {
    if |s| == 0 then []
    else [0] + seq(|s| - 1, i requires 0 <= i < |s| - 1 => (s[i + 1] - s[i]) % m)
  }

  /** The wrap-around the source documents: 0 - 1 becomes 3 modulo 4, so
      the stream 1, 0 decodes to 0, 3; a longer stream wraps the same way. */
  lemma DecodeDifferentialWraps()
    ensures DecodeDifferential([1, 0], 4) == [0, 3]
    ensures DecodeDifferential([0, 3, 0], 4) == [0, 3, 1]
  {
  }

  /** The reference encoder decode_differential inverts: a running sum modulo
      m, seeded with `prev`, over the symbols in `t`. */
  function EncodeFrom(prev: int, t: seq<int>, m: int): (e: seq<int>)
    requires m >= 1
    ensures |e| == |t|
    decreases |t|
  {
    if t == [] then []
    else
      var x := (prev + t[0]) % m;
      [x] + EncodeFrom(x, t[1..], m)
  }

  /** Differential encoding of a stream whose first symbol is the seed. */
  function EncodeDifferential(s: seq<int>, m: int): (e: seq<int>)
    requires m >= 1
    ensures |e| == |s|
    ensures |s| > 0 ==> e[0] == s[0]
  {
    if s == [] then [] else [s[0]] + EncodeFrom(s[0], s[1..], m)
  }

  /** Each encoded symbol is the previous one plus the input, modulo m. */
  lemma {:induction false} EncodeFromAt(prev: int, t: seq<int>, m: int, i: nat)
    requires m >= 1 && i < |t|
    ensures EncodeFrom(prev, t, m)[i] == ((if i == 0 then prev else EncodeFrom(prev, t, m)[i - 1]) + t[i]) % m
    decreases i
  {
    if i > 0 {
      var x := (prev + t[0]) % m;
      EncodeFromAt(x, t[1..], m, i - 1);
    }
  }

  /** Decoding a running-sum encoding recovers every symbol after the first;
      the first comes back as the placeholder 0. */
  lemma {:induction false} DecodeOfEncode(s: seq<int>, m: int)
    requires m >= 1 && InRange(s, m)
    ensures DecodeDifferential(EncodeDifferential(s, m), m) == if s == [] then [] else [0] + s[1..]
  {
    if s != [] {
      var d := DecodeDifferential(EncodeDifferential(s, m), m);
      forall i | 1 <= i < |s| ensures d[i] == s[i] {
        DecodeOfEncodeAt(s, m, i);
      }
    }
  }

  /** Helper for DecodeOfEncode: one position past the first. */
  lemma DecodeOfEncodeAt(s: seq<int>, m: int, i: nat)
    requires m >= 1 && 1 <= i < |s| && 0 <= s[i] < m
    ensures DecodeDifferential(EncodeDifferential(s, m), m)[i] == s[i]
  {
    var e := EncodeDifferential(s, m);
    var a, x := e[i - 1], s[i];
    EncodeDiffAt(s, m, i);
    assert e[i] == (a + x) % m;
    assert DecodeDifferential(e, m)[i] == (e[i] - a) % m;
    ModSubAfterAdd(a, x, m);
    ModUnique(x, m, 0, x);
    assert ((a + x) % m - a) % m == x;
  }

  /** Encoding a decoded stream, seeded with the original first symbol,
      reproduces a stream whose later symbols are already reduced modulo m. */
  lemma {:induction false} EncodeOfDecode(e: seq<int>, m: int)
    requires m >= 1 && e != []
    requires forall i :: 1 <= i < |e| ==> 0 <= e[i] < m
    ensures EncodeDifferential([e[0]] + DecodeDifferential(e, m)[1..], m) == e
  {
    var d := DecodeDifferential(e, m);
    var s := [e[0]] + d[1..];
    var r := EncodeDifferential(s, m);
    var t := s[1..];
    assert t == d[1..];
    forall i | 0 <= i < |e| ensures r[i] == e[i] {
      if i > 0 {
        EncodeDiffPrefix(e, m, i);
      }
    }
  }

  /** Helper for EncodeOfDecode: by induction on the position. */
  lemma {:induction false} EncodeDiffPrefix(e: seq<int>, m: int, i: nat)
    requires m >= 1 && e != [] && 1 <= i < |e|
    requires forall j :: 1 <= j < |e| ==> 0 <= e[j] < m
    ensures EncodeDifferential([e[0]] + DecodeDifferential(e, m)[1..], m)[i] == e[i]
    decreases i
  {
    var d := DecodeDifferential(e, m);
    var s := [e[0]] + d[1..];
    var r := EncodeDifferential(s, m);
    EncodeDiffAt(s, m, i);
    if i > 1 {
      EncodeDiffPrefix(e, m, i - 1);
    }
    assert s[i] == d[i] == (e[i] - e[i - 1]) % m;
    ModAddAfterSub(e[i - 1], e[i], m);
    ModUnique(e[i], m, 0, e[i]);
  }

  /** Past the seed, each encoded symbol is its predecessor plus the input
      symbol, modulo m. */
  lemma EncodeDiffAt(s: seq<int>, m: int, i: nat)
    requires m >= 1 && 1 <= i < |s|
    ensures EncodeDifferential(s, m)[i] == (EncodeDifferential(s, m)[i - 1] + s[i]) % m
  {
    var t := s[1..];
    EncodeFromAt(s[0], t, m, i - 1);
    assert t[i - 1] == s[i];
  }

  // ---------------------------------------------------------- Manchester code

  /** The two conventions decode_manchester_string knows. */
  predicate KnownScheme(scheme: string) {
    scheme == "IEEE" || scheme == "Thomas"
  }

  /** The decoded character for one two-character chunk: IEEE 802.3 reads
      "10" as '1' and "01" as '0'; G.E. Thomas reads them the other way round;
      every other chunk is a line-code violation, marked 'E'. */
  function PairValue(a: char, b: char, scheme: string): (c: char)
    requires KnownScheme(scheme)
    ensures c == '0' || c == '1' || c == 'E'
    ensures c == 'E' <==> !((a == '1' && b == '0') || (a == '0' && b == '1'))
  {
    if a == '1' && b == '0' then (if scheme == "IEEE" then '1' else '0')
    else if a == '0' && b == '1' then (if scheme == "IEEE" then '0' else '1')
    else 'E'
  }

  /** decode_manchester_string as a function: an odd trailing character is
      dropped; a known scheme maps each chunk with PairValue; any other scheme
      returns the even-length input unchanged. */
  function ManchesterDecode(bits: string, scheme: string): (r: string)
    ensures KnownScheme(scheme) ==> |r| == |bits| / 2
    ensures !KnownScheme(scheme) ==> |r| == |bits| - |bits| % 2 && r == bits[..|r|]
  {
    var even := bits[..|bits| - |bits| % 2];
    if KnownScheme(scheme) then
      seq(|even| / 2, i requires 0 <= i < |even| / 2 => PairValue(even[2 * i], even[2 * i + 1], scheme))
    else even
  }

  /** Position-wise view of the decoder for a known scheme. */
  lemma ManchesterDecodeAt(bits: string, scheme: string, i: nat)
    requires KnownScheme(scheme) && i < |bits| / 2
    ensures ManchesterDecode(bits, scheme)[i] == PairValue(bits[2 * i], bits[2 * i + 1], scheme)
  {
    var even := bits[..|bits| - |bits| % 2];
    EvenLength(|bits|);
    assert even[2 * i] == bits[2 * i] && even[2 * i + 1] == bits[2 * i + 1];
  }

  /** Dropping an odd trailing character leaves n / 2 whole chunks. */
  lemma EvenLength(n: nat)
    ensures n - n % 2 == 2 * (n / 2) && (n - n % 2) / 2 == n / 2
  {
  }

  /** decode_manchester_string: drops an odd trailing character, returns
      the string unchanged for an unknown scheme and otherwise decodes it
      chunk by chunk. */
  method DecodeManchesterString(bits: string, scheme: string) returns (decoded: string)
    ensures decoded == ManchesterDecode(bits, scheme)
  {
    var even := bits;
    if |bits| % 2 != 0 {
      even := bits[..|bits| - 1];
    }
    if !KnownScheme(scheme) {
      return even;
    }
    decoded := DecodePairs(even, scheme);
    forall j | 0 <= j < |decoded|
      ensures decoded[j] == ManchesterDecode(bits, scheme)[j]
    {
      ManchesterDecodeAt(bits, scheme, j);
    }
  }

  /** The loop over the two-character chunks, appending one character per
      chunk to `decoded`. */
  method DecodePairs(even: string, scheme: string) returns (decoded: string)
    requires KnownScheme(scheme)
    ensures |decoded| == |even| / 2
    ensures forall j :: 0 <= j < |even| / 2 ==> decoded[j] == PairValue(even[2 * j], even[2 * j + 1], scheme)
  {
    decoded := [];
    var k := 0;
    while k < |even| / 2
      invariant 0 <= k <= |even| / 2
      invariant |decoded| == k
      invariant forall j :: 0 <= j < k ==> decoded[j] == PairValue(even[2 * j], even[2 * j + 1], scheme)
    {
      decoded := decoded + [PairValue(even[2 * k], even[2 * k + 1], scheme)];
      k := k + 1;
    }
  }

  /** Binary strings: only '0' and '1'. */
  predicate IsBinary(s: string) {
    forall i :: 0 <= i < |s| ==> s[i] == '0' || s[i] == '1'
  }

  /** The Manchester encoder the decoder inverts: each bit becomes the chunk
      that PairValue reads back as that bit. */
  function ManchesterEncode(bits: string, scheme: string): (line: string)
    requires KnownScheme(scheme)
    ensures |line| == 2 * |bits|
    decreases |bits|
  {
    if bits == [] then []
    else
      var high := (bits[0] == '1') == (scheme == "IEEE");
      (if high then "10" else "01") + ManchesterEncode(bits[1..], scheme)
  }

  /** Position-wise view of the encoder. */
  lemma {:induction false} ManchesterEncodeAt(bits: string, scheme: string, i: nat)
    requires KnownScheme(scheme) && i < |bits|
    ensures var line := ManchesterEncode(bits, scheme);
      var high := (bits[i] == '1') == (scheme == "IEEE");
      line[2 * i] == (if high then '1' else '0') && line[2 * i + 1] == (if high then '0' else '1')
    decreases i
  {
    if i > 0 {
      ManchesterEncodeAt(bits[1..], scheme, i - 1);
    }
  }

  /** Encoding a bit string and decoding it with the same convention gives
      the bit string back. */
  lemma {:induction false} ManchesterRoundTrip(bits: string, scheme: string)
    requires KnownScheme(scheme) && IsBinary(bits)
    ensures ManchesterDecode(ManchesterEncode(bits, scheme), scheme) == bits
  {
    var line := ManchesterEncode(bits, scheme);
    var r := ManchesterDecode(line, scheme);
    assert |r| == |bits|;
    forall i | 0 <= i < |bits| ensures r[i] == bits[i] {
      ManchesterEncodeAt(bits, scheme, i);
      ManchesterDecodeAt(line, scheme, i);
    }
  }

  /** The worked example: "1010" IEEE-encodes to "10011001" and decodes back,
      and a "11" chunk decodes to the violation marker at its position. */
  lemma ManchesterExample()
    ensures ManchesterEncode("1010", "IEEE") == "10011001"
    ensures ManchesterDecode("10011001", "IEEE") == "1010"
    ensures ManchesterDecode("10111001", "IEEE") == "1E10"
  {
    DecodeFourChunks("10011001");
    DecodeFourChunks("10111001");
  }

  /** Helper for ManchesterExample: an eight-character line decodes chunk by
      chunk. */
  lemma DecodeFourChunks(line: string)
    requires |line| == 8
    ensures ManchesterDecode(line, "IEEE") == [PairValue(line[0], line[1], "IEEE"), PairValue(line[2], line[3], "IEEE"),
                                               PairValue(line[4], line[5], "IEEE"), PairValue(line[6], line[7], "IEEE")]
  {
    ManchesterDecodeAt(line, "IEEE", 0);
    ManchesterDecodeAt(line, "IEEE", 1);
    ManchesterDecodeAt(line, "IEEE", 2);
    ManchesterDecodeAt(line, "IEEE", 3);
  }

  /** Under a known scheme every output character is '0', '1' or 'E', and it
      is 'E' exactly where the chunk is neither "10" nor "01" ("00", "11", or
      a chunk holding some other character). */
  lemma {:induction false} ManchesterViolations(bits: string, scheme: string, i: nat)
    requires KnownScheme(scheme) && i < |bits| / 2
    ensures var r := ManchesterDecode(bits, scheme);
      var chunk := bits[2 * i..2 * i + 2];
      (r[i] == '0' || r[i] == '1' || r[i] == 'E') &&
      (r[i] == 'E' <==> chunk != "10" && chunk != "01")
  {
    var chunk := bits[2 * i..2 * i + 2];
    ChunkOfDecode(bits, scheme, i);
    PairChunk(chunk);
  }

  /** Output character i is the decoded two-character chunk at 2i. */
  lemma ChunkOfDecode(bits: string, scheme: string, i: nat)
    requires KnownScheme(scheme) && i < |bits| / 2
    ensures ManchesterDecode(bits, scheme)[i] == PairValue(bits[2 * i..2 * i + 2][0], bits[2 * i..2 * i + 2][1], scheme)
  {
    ManchesterDecodeAt(bits, scheme, i);
    ChunkChars(bits, 2 * i);
  }

  /** The characters of the two-character chunk at position k. */
  lemma ChunkChars(s: string, k: nat)
    requires k + 2 <= |s|
    ensures |s[k..k + 2]| == 2 && s[k..k + 2][0] == s[k] && s[k..k + 2][1] == s[k + 1]
  {
  }

  /** A two-character chunk is "10" or "01" exactly when its characters are. */
  lemma PairChunk(c: string)
    requires |c| == 2
    ensures c == "10" <==> c[0] == '1' && c[1] == '0'
    ensures c == "01" <==> c[0] == '0' && c[1] == '1'
  {
    if c[0] == '1' && c[1] == '0' {
      assert c == "10";
    }
    if c[0] == '0' && c[1] == '1' {
      assert c == "01";
    }
  }

  /** The Thomas convention decodes every valid chunk to the complement of
      what IEEE 802.3 decodes it to, and marks the same violations. */
  lemma ThomasComplementsIeee(bits: string, i: nat)
    requires i < |bits| / 2
    ensures var ieee := ManchesterDecode(bits, "IEEE");
      var thomas := ManchesterDecode(bits, "Thomas");
      (ieee[i] == 'E' <==> thomas[i] == 'E') &&
      (ieee[i] == '1' <==> thomas[i] == '0') && (ieee[i] == '0' <==> thomas[i] == '1')
  {
    ManchesterDecodeAt(bits, "IEEE", i);
    ManchesterDecodeAt(bits, "Thomas", i);
  }
}
