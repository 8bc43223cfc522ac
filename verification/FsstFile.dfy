/** The symbol table file: four magic bytes, a version, padding, a count, symbols and lengths. */
module FsstFile {
  import opened Results
  import opened Fsst

  type Bytes = seq<Byte>

  const MAGIC: Bytes := [0x43, 0x43, 0x46, 0x53]  // "CCFS"
  const VERSION: Byte := 1
  const HEADER_LEN: nat := 12
  const U32_MAX: nat := 0xFFFF_FFFF
  const U64_LIMIT: nat := 0x1_0000_0000_0000_0000

  /**
   * What `save` writes and `load` hands to the compressor: symbols as 64-bit words, and how many bytes of each count.
   */
  datatype Codec = Codec(symbols: seq<nat>, lengths: Bytes)

  predicate Words(symbols: seq<nat>) { forall i :: 0 <= i < |symbols| ==> symbols[i] < U64_LIMIT }

  datatype SaveError = LengthMismatch | TooManySymbols
  datatype LoadError = ShortHeader | BadMagic | BadVersion | ShortSymbols | ShortLengths

  // ----- little-endian words -----

  function LeBytes(n: nat, k: nat): (b: Bytes)
    ensures |b| == k
  {
    if k == 0 then [] else [n % 256] + LeBytes(n / 256, k - 1)
  }

  function LeValue(b: Bytes): nat {
    if b == [] then 0 else b[0] + 256 * LeValue(b[1..])
  }

  function Power256(k: nat): nat { if k == 0 then 1 else 256 * Power256(k - 1) }

  lemma {:induction false} LeValueOfLeBytes(n: nat, k: nat)
    requires n < Power256(k)
    ensures LeValue(LeBytes(n, k)) == n
  {
    if k > 0 {
      LeValueOfLeBytes(n / 256, k - 1);
      assert LeBytes(n, k)[1..] == LeBytes(n / 256, k - 1);
    }
  }

  /** The low byte comes first. */
  lemma {:induction false} LeBytesAt(n: nat, k: nat, i: nat)
    requires i < k
    ensures Power256(i) > 0 && LeBytes(n, k)[i] == n / Power256(i) % 256
  {
    if i > 0 {
      LeBytesAt(n / 256, k - 1, i - 1);
      DivideTwice(n, Power256(i - 1));
    }
  }

  lemma DivideTwice(n: nat, m: nat)
    requires m > 0
    ensures n / 256 / m == n / (256 * m)
  {
    var q, r := n / 256, n % 256;
    var t, u := q / m, q % m;
    assert q == m * t + u && n == 256 * q + r;
    assert n == 256 * m * t + (256 * u + r);
    assert 256 * u + r < 256 * m;
    QuotientIs(n, 256 * m, t, 256 * u + r);
  }

  lemma QuotientIs(n: nat, m: nat, t: nat, rest: nat)
    requires n == m * t + rest && rest < m
    ensures n / m == t
  {
    var q, r := n / m, n % m;
    assert n == m * q + r;
    assert q < t ==> m * (q + 1) <= m * t;
    assert t < q ==> m * (t + 1) <= m * q;
  }

  lemma LowByte(low: Byte, high: nat)
    ensures (low + 256 * high) % 256 == low && (low + 256 * high) / 256 == high
  {
  }

  lemma {:induction false} LeBytesOfLeValue(b: Bytes)
    ensures LeBytes(LeValue(b), |b|) == b && LeValue(b) < Power256(|b|)
  {
    if b != [] {
      LeBytesOfLeValue(b[1..]);
      LowByte(b[0], LeValue(b[1..]));
      assert LeBytes(LeValue(b), |b|) == [b[0]] + LeBytes(LeValue(b[1..]), |b| - 1);
      assert b == [b[0]] + b[1..];
    }
  }

  lemma WordSizes()
    ensures Power256(4) == U32_MAX + 1 && Power256(8) == U64_LIMIT
  {
    assert Power256(4) == 256 * (256 * (256 * (256 * Power256(0))));
    assert Power256(8) == 256 * (256 * (256 * (256 * Power256(4))));
  }

  function SymbolBytes(symbols: seq<nat>): (b: Bytes)
    ensures |b| == 8 * |symbols|
  {
    if symbols == [] then [] else LeBytes(symbols[0], 8) + SymbolBytes(symbols[1..])
  }

  /** `chunks_exact(8)` and `Symbol::from_slice`. */
  function SymbolsOf(b: Bytes): (symbols: seq<nat>)
    requires |b| % 8 == 0
    ensures |symbols| * 8 == |b|
  {
    if b == [] then [] else [LeValue(b[..8])] + SymbolsOf(b[8..])
  }

  lemma {:induction false} SymbolsOfSymbolBytes(symbols: seq<nat>)
    requires Words(symbols)
    ensures SymbolsOf(SymbolBytes(symbols)) == symbols
  {
    if symbols != [] {
      var b := SymbolBytes(symbols);
      WordSizes();
      LeValueOfLeBytes(symbols[0], 8);
      assert b[..8] == LeBytes(symbols[0], 8) && b[8..] == SymbolBytes(symbols[1..]);
      SymbolsOfSymbolBytes(symbols[1..]);
    }
  }

  lemma {:induction false} SymbolBytesOfSymbols(b: Bytes)
    requires |b| % 8 == 0
    ensures Words(SymbolsOf(b)) && SymbolBytes(SymbolsOf(b)) == b
    decreases |b|
  {
    if b != [] {
      var symbols := SymbolsOf(b);
      WordSizes();
      LeBytesOfLeValue(b[..8]);
      SymbolBytesOfSymbols(b[8..]);
      assert symbols[1..] == SymbolsOf(b[8..]);
      assert forall i :: 0 < i < |symbols| ==> symbols[i] == symbols[1..][i - 1];
      assert b == b[..8] + b[8..];
    }
  }

  // ----- save and load -----

  function Header(count: nat, pad: Bytes): Bytes { MAGIC + [VERSION] + pad + LeBytes(count, 4) }

  function FileBytes(c: Codec, pad: Bytes): Bytes {
    Header(|c.symbols|, pad) + SymbolBytes(c.symbols) + c.lengths
  }

  function Saved(c: Codec): Result<Bytes, SaveError> {
    if |c.symbols| != |c.lengths| then Err(LengthMismatch)
    else if |c.symbols| > U32_MAX then Err(TooManySymbols)
    else Ok(FileBytes(c, [0, 0, 0]))
  }

  function Loaded(file: Bytes): Result<Codec, LoadError> {
    if |file| < HEADER_LEN then Err(ShortHeader)
    else if file[0..4] != MAGIC then Err(BadMagic)
    else if file[4] != VERSION then Err(BadVersion)
    else
      var count := LeValue(file[8..12]);
      if |file| < HEADER_LEN + count * 8 then Err(ShortSymbols)
      else if |file| < HEADER_LEN + count * 8 + count then Err(ShortLengths)
      else
        var symbols := file[HEADER_LEN..HEADER_LEN + count * 8];
        Ok(Codec(SymbolsOf(symbols), file[HEADER_LEN + count * 8..HEADER_LEN + count * 8 + count]))
  }

  lemma {:induction false} SymbolBytesConcat(a: seq<nat>, b: seq<nat>)
    ensures SymbolBytes(a + b) == SymbolBytes(a) + SymbolBytes(b)
  {
    if a == [] {
      assert a + b == b;
    } else {
      assert (a + b)[1..] == a[1..] + b;
      SymbolBytesConcat(a[1..], b);
    }
  }

  /** `Codec::save`: the bytes that reach the file after the rename. */
  method Save(c: Codec) returns (r: Result<Bytes, SaveError>)
    ensures r == Saved(c)
    ensures r == Err(LengthMismatch) <==> |c.symbols| != |c.lengths|
    ensures r == Err(TooManySymbols) <==> |c.symbols| == |c.lengths| > 0xFFFF_FFFF
    ensures r.Ok? ==>
              && |r.value| == 12 + 9 * |c.symbols|
              && r.value[..8] == [0x43, 0x43, 0x46, 0x53, 1, 0, 0, 0] && r.value[8..12] == LeBytes(|c.symbols|, 4)
              && r.value[12..12 + 8 * |c.symbols|] == SymbolBytes(c.symbols)
              && r.value[12 + 8 * |c.symbols|..] == c.lengths
  {
    hide LeBytes, SymbolBytes;
    if |c.symbols| == |c.lengths| {
      SavedLayout(c);
    }
    if |c.symbols| != |c.lengths| {
      return Err(LengthMismatch);
    }
    var count := |c.symbols|;
    if count > U32_MAX {
      return Err(TooManySymbols);
    }
    SymbolBytesOfNone();
    var file: Bytes := MAGIC;
    file := file + [VERSION];
    file := file + [0, 0, 0];
    file := file + LeBytes(count, 4);
    ghost var header := file;
    for i := 0 to count
      invariant file == header + SymbolBytes(c.symbols[..i])
    {
      SymbolBytesConcat(c.symbols[..i], [c.symbols[i]]);
      assert c.symbols[..i + 1] == c.symbols[..i] + [c.symbols[i]];
      SymbolBytesOfOne(c.symbols[i]);
      file := file + LeBytes(c.symbols[i], 8);
    }
    assert c.symbols[..count] == c.symbols;
    return Ok(file + c.lengths);
  }

  lemma SymbolBytesOfNone()
    ensures SymbolBytes([]) == []
  {
  }

  lemma SymbolBytesOfOne(symbol: nat)
    ensures SymbolBytes([symbol]) == LeBytes(symbol, 8)
  {
    assert [symbol][1..] == [];
  }

  /** Four magic bytes, the version, three of padding, the count, the symbols and their lengths. */
  lemma SavedLayout(c: Codec)
    requires |c.symbols| == |c.lengths|
    ensures var file := FileBytes(c, [0, 0, 0]);
            && |file| == 12 + 9 * |c.symbols|
            && file[..8] == [0x43, 0x43, 0x46, 0x53, 1, 0, 0, 0] && file[8..12] == LeBytes(|c.symbols|, 4)
            && file[12..12 + 8 * |c.symbols|] == SymbolBytes(c.symbols)
            && file[12 + 8 * |c.symbols|..] == c.lengths
  {
    FileLayout(c, [0, 0, 0], []);
    hide LeBytes, SymbolBytes;
    var file := FileBytes(c, [0, 0, 0]);
    assert file + [] == file;
    assert file[5..8] == [0, 0, 0];
    assert file[..8] == file[0..4] + [file[4]] + file[5..8];
  }

  lemma SymbolsFrom(buf: Bytes, i: nat)
    requires |buf| % 8 == 0 && i % 8 == 0 && i + 8 <= |buf|
    ensures SymbolsOf(buf[i..]) == [LeValue(buf[i..i + 8])] + SymbolsOf(buf[i + 8..])
  {
    var rest := buf[i..];
    assert rest[8..] == buf[i + 8..] && rest[..8] == buf[i..i + 8];
  }

  lemma NoSymbols()
    ensures SymbolsOf([]) == []
  {
  }

  /** The `chunks_exact(8)` loop of `Codec::load`. */
  method ReadSymbols(buf: Bytes) returns (symbols: seq<nat>)
    requires |buf| % 8 == 0
    ensures symbols == SymbolsOf(buf)
  {
    hide SymbolsOf, LeValue;
    symbols := [];
    var i := 0;
    assert buf[0..] == buf;
    while i < |buf|
      invariant 0 <= i <= |buf| && i % 8 == 0
      invariant SymbolsOf(buf) == symbols + SymbolsOf(buf[i..])
    {
      SymbolsFrom(buf, i);
      symbols := symbols + [LeValue(buf[i..i + 8])];
      i := i + 8;
    }
    NoSymbols();
    assert buf[i..] == [];
  }

  /** `Codec::load` */
  method Load(file: Bytes) returns (r: Result<Codec, LoadError>)
    ensures r == Loaded(file)
  {
    hide LeValue, SymbolsOf;
    if |file| < HEADER_LEN {
      return Err(ShortHeader);
    }
    var header := file[..HEADER_LEN];
    assert header[0..4] == file[0..4] && header[8..12] == file[8..12];
    if header[0..4] != MAGIC {
      return Err(BadMagic);
    }
    if header[4] != VERSION {
      return Err(BadVersion);
    }
    var count := LeValue(header[8..12]);
    var at := HEADER_LEN;
    if |file| < at + count * 8 {
      return Err(ShortSymbols);
    }
    var symbols := ReadSymbols(file[at..at + count * 8]);
    at := at + count * 8;
    if |file| < at + count {
      return Err(ShortLengths);
    }
    return Ok(Codec(symbols, file[at..at + count]));
  }

  lemma FileLayout(c: Codec, pad: Bytes, junk: Bytes)
    requires |pad| == 3
    ensures var file := FileBytes(c, pad) + junk; var n := 8 * |c.symbols|;
            && |file| == HEADER_LEN + n + |c.lengths| + |junk|
            && file[0..4] == MAGIC && file[4] == VERSION && file[8..12] == LeBytes(|c.symbols|, 4)
            && file[HEADER_LEN..HEADER_LEN + n] == SymbolBytes(c.symbols)
            && file[HEADER_LEN + n..HEADER_LEN + n + |c.lengths|] == c.lengths
  {
    hide LeBytes, SymbolBytes;
    var header, rest := Header(|c.symbols|, pad), SymbolBytes(c.symbols) + c.lengths + junk;
    assert |header| == HEADER_LEN;
    assert header[0..4] == MAGIC && header[4] == VERSION && header[8..12] == LeBytes(|c.symbols|, 4);
    assert FileBytes(c, pad) + junk == header + rest;
  }

  /** A saved table loads as the same table, whatever the padding and whatever follows it. */
  lemma LoadOfSaved(c: Codec, pad: Bytes, junk: Bytes)
    requires |c.symbols| == |c.lengths| <= U32_MAX && Words(c.symbols) && |pad| == 3
    ensures Loaded(FileBytes(c, pad) + junk) == Ok(c)
  {
    FileLayout(c, pad, junk);
    WordSizes();
    LeValueOfLeBytes(|c.symbols|, 4);
    SymbolsOfSymbolBytes(c.symbols);
    hide FileBytes, LeBytes, LeValue, SymbolBytes, SymbolsOf;
  }

  /** Load then inverts save. */
  lemma LoadOfSave(c: Codec)
    requires Words(c.symbols) && Saved(c).Ok?
    ensures Loaded(Saved(c).value) == Ok(c)
  {
    hide Loaded, FileBytes;
    LoadOfSaved(c, [0, 0, 0], []);
    assert FileBytes(c, [0, 0, 0]) + [] == FileBytes(c, [0, 0, 0]);
  }

  /** Every strict prefix of a saved file is rejected. */
  lemma TruncatedFileIsRejected(c: Codec, k: nat)
    requires Words(c.symbols) && Saved(c).Ok? && k < |Saved(c).value|
    ensures Loaded(Saved(c).value[..k]).Err?
  {
    var file := Saved(c).value;
    FileLayout(c, [0, 0, 0], []);
    assert FileBytes(c, [0, 0, 0]) + [] == file;
    WordSizes();
    LeValueOfLeBytes(|c.symbols|, 4);
    hide FileBytes, LeBytes, LeValue, SymbolBytes, SymbolsOf;
    if k >= HEADER_LEN {
      assert file[..k][8..12] == file[8..12];
    }
  }

  /** What load accepts is exactly a saved table with any padding and anything after it. */
  lemma LoadedIffSaved(file: Bytes, c: Codec)
    ensures Loaded(file) == Ok(c) <==>
            |c.symbols| == |c.lengths| <= U32_MAX && Words(c.symbols) &&
            exists pad: Bytes, junk: Bytes :: |pad| == 3 && file == FileBytes(c, pad) + junk
  {
    hide Loaded, FileBytes;
    if Loaded(file) == Ok(c) {
      FileOfLoaded(file);
      var count := LeValue(file[8..12]);
      assert |file[5..8]| == 3 && file == FileBytes(c, file[5..8]) + file[HEADER_LEN + count * 9..];
    }
    forall pad: Bytes, junk: Bytes
      | |c.symbols| == |c.lengths| <= U32_MAX && Words(c.symbols) && |pad| == 3 && file == FileBytes(c, pad) + junk
      ensures Loaded(file) == Ok(c)
    {
      LoadOfSaved(c, pad, junk);
    }
  }

  lemma HeaderOfFile(file: Bytes, count: nat)
    requires |file| >= HEADER_LEN && file[0..4] == MAGIC && file[4] == VERSION && file[8..12] == LeBytes(count, 4)
    ensures Header(count, file[5..8]) == file[..HEADER_LEN]
  {
    hide LeBytes;
    assert file[..HEADER_LEN] == file[0..4] + [file[4]] + file[5..8] + file[8..12];
  }

  lemma CutFile(file: Bytes, a: nat, b: nat, c: nat)
    requires a <= b <= c <= |file|
    ensures file == file[..a] + file[a..b] + file[b..c] + file[c..]
  {
  }

  lemma FileOfLoaded(file: Bytes)
    requires Loaded(file).Ok?
    ensures var c := Loaded(file).value; var count := LeValue(file[8..12]);
            && |c.symbols| == |c.lengths| == count <= U32_MAX && Words(c.symbols)
            && |file| >= HEADER_LEN + count * 9
            && file == FileBytes(c, file[5..8]) + file[HEADER_LEN + count * 9..]
  {
    hide LeBytes, LeValue, SymbolBytes, SymbolsOf, Power256;
    var count := LeValue(file[8..12]);
    WordSizes();
    LeBytesOfLeValue(file[8..12]);
    SymbolBytesOfSymbols(file[HEADER_LEN..HEADER_LEN + count * 8]);
    HeaderOfFile(file, count);
    CutFile(file, HEADER_LEN, HEADER_LEN + count * 8, HEADER_LEN + count * 9);
  }

  // ----- the table the decoder sees -----

  /** The meaningful bytes of each symbol. */
  function TableOf(c: Codec): (table: Table)
    requires |c.symbols| == |c.lengths|
    ensures |table| == |c.symbols|
  {
    seq(|c.symbols|, i requires 0 <= i < |c.symbols| =>
          LeBytes(c.symbols[i], 8)[..if c.lengths[i] <= 8 then c.lengths[i] else 8])
  }

  /** What was compressed before saving is decompressed alike after loading. */
  lemma ReloadedCodecDecodesAlike(c: Codec, wide: bool, choose: nat -> Option<nat>, plain: Bytes)
    requires Words(c.symbols) && Saved(c).Ok?
    ensures Loaded(Saved(c).value).Ok? &&
            |Loaded(Saved(c).value).value.symbols| == |Loaded(Saved(c).value).value.lengths|
    ensures |c.symbols| > 0 || !wide ==>
              Decompressed(TableOf(Loaded(Saved(c).value).value), wide, Compressed(TableOf(c), choose, plain)) == plain
  {
    hide Loaded, FileBytes, Decompressed, Compressed;
    LoadOfSave(c);
    DecompressOfCompressIff(TableOf(c), wide, choose, plain);
  }
}
