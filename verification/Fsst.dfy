/**
 * FSST streams: which byte strings the guard lets through to the unchecked decoder,
 * in its sequential and in its 32-lane form, and what the decoder makes of them.
 */
module Fsst {
  import opened Results
  import opened Text

  type Byte = b: int | 0 <= b < 256

  /** The escape code: the byte after it is a literal. */
  const ESCAPE: Byte := 255

  /** Symbol `i` stands for the byte string `table[i]`. */
  type Table = seq<seq<Byte>>

  predicate ValidTable(table: Table) {
    |table| <= 255 && forall i :: 0 <= i < |table| ==> 1 <= |table[i]| <= 8
  }

  // ----- the format, independent of any scan -----

  datatype Code = Sym(index: nat) | Lit(value: Byte)

  /** Every symbol code exists in a table of `n` symbols and is not the escape code. */
  predicate InTable(codes: seq<Code>, n: nat) {
    forall i :: 0 <= i < |codes| && codes[i].Sym? ==> codes[i].index < n && codes[i].index < ESCAPE
  }

  function Serialize(codes: seq<Code>): seq<Byte>
    requires InTable(codes, 256)
  {
    if codes == [] then []
    else
      (match codes[0]
       case Sym(i) => [i]
       case Lit(b) => [ESCAPE, b]) + Serialize(codes[1..])
  }

  function Expand(table: Table, codes: seq<Code>): seq<Byte>
    requires InTable(codes, |table|)
  {
    if codes == [] then []
    else
      (match codes[0]
       case Sym(i) => table[i]
       case Lit(b) => [b]) + Expand(table, codes[1..])
  }

  // ----- the sequential guard -----

  predicate Accepts(s: seq<Byte>, n: nat)
    decreases |s|
  {
    if s == [] then true
    else if s[0] == ESCAPE then |s| >= 2 && Accepts(s[2..], n)
    else s[0] < n && Accepts(s[1..], n)
  }

  /** `codes_in_range_scalar` */
  method CodesInRangeScalar(encoded: seq<Byte>, n: nat) returns (ok: bool)
    ensures ok == Accepts(encoded, n)
  {
    var i := 0;
    assert encoded[0..] == encoded;
    while i < |encoded|
      invariant 0 <= i <= |encoded|
      invariant Accepts(encoded, n) == Accepts(encoded[i..], n)
    {
      ghost var rest := encoded[i..];
      if encoded[i] == ESCAPE {
        if i + 1 >= |encoded| {
          return false;
        }
        assert rest[2..] == encoded[i + 2..];
        i := i + 2;
      } else {
        if encoded[i] >= n {
          return false;
        }
        assert rest[1..] == encoded[i + 1..];
        i := i + 1;
      }
    }
    return true;
  }

  lemma {:induction false} AcceptsSerialized(codes: seq<Code>, n: nat)
    requires InTable(codes, n) && InTable(codes, 256)
    ensures Accepts(Serialize(codes), n)
  {
    if codes != [] {
      AcceptsSerialized(codes[1..], n);
      var s, rest := Serialize(codes), Serialize(codes[1..]);
      match codes[0]
      case Sym(i) => assert s[1..] == rest;
      case Lit(b) => assert s[2..] == rest;
    }
  }

  /** The codes of an accepted stream. */
  function Parse(s: seq<Byte>, n: nat): (codes: seq<Code>)
    requires Accepts(s, n)
    ensures InTable(codes, n) && InTable(codes, 256)
    decreases |s|
  {
    if s == [] then []
    else if s[0] == ESCAPE then [Lit(s[1])] + Parse(s[2..], n)
    else [Sym(s[0])] + Parse(s[1..], n)
  }

  lemma {:induction false} SerializeOfParse(s: seq<Byte>, n: nat)
    requires Accepts(s, n)
    ensures Serialize(Parse(s, n)) == s
    decreases |s|
  {
    if s != [] {
      var codes := Parse(s, n);
      if s[0] == ESCAPE {
        SerializeOfParse(s[2..], n);
        assert codes[1..] == Parse(s[2..], n);
        assert s == [ESCAPE, s[1]] + s[2..];
      } else {
        SerializeOfParse(s[1..], n);
        assert codes[1..] == Parse(s[1..], n);
      }
    }
  }

  /** The scan accepts a stream exactly when it is a sequence of in-range codes and complete escape pairs. */
  lemma AcceptsIffStream(s: seq<Byte>, n: nat)
    ensures Accepts(s, n) <==> exists codes :: InTable(codes, n) && InTable(codes, 256) && Serialize(codes) == s
  {
    hide Accepts, Serialize;
    if Accepts(s, n) {
      SerializeOfParse(s, n);
    }
    forall codes | InTable(codes, n) && InTable(codes, 256) && Serialize(codes) == s ensures Accepts(s, n) {
      AcceptsSerialized(codes, n);
    }
  }

  // ----- the 32-lane guard -----

  const LANES: nat := 32

  /** `_mm256_cmpeq_epi8` against one broadcast byte, as one flag per lane. */
  function CmpEq(v: seq<Byte>, b: Byte): (mask: seq<bool>)
    ensures |mask| == |v| && forall i :: 0 <= i < |v| ==> mask[i] == (v[i] == b)
  {
    seq(|v|, i requires 0 <= i < |v| => v[i] == b)
  }

  /** `_mm256_subs_epu8` of one broadcast byte: subtraction that stops at zero. */
  function SubsEpu8(v: seq<Byte>, b: Byte): (r: seq<Byte>)
    ensures |r| == |v| && forall i :: 0 <= i < |v| ==> r[i] == if v[i] >= b then v[i] - b else 0
  {
    seq(|v|, i requires 0 <= i < |v| => if v[i] >= b then v[i] - b else 0)
  }

  /** A block without escapes is read byte by byte. */
  lemma {:induction false} AcceptsPlainBlock(block: seq<Byte>, rest: seq<Byte>, n: nat)
    requires ESCAPE !in block
    ensures Accepts(block + rest, n) <==> (forall i :: 0 <= i < |block| ==> block[i] < n) && Accepts(rest, n)
    decreases |block|
  {
    if block == [] {
      assert block + rest == rest;
    } else {
      assert (block + rest)[1..] == block[1..] + rest;
      AcceptsPlainBlock(block[1..], rest, n);
      assert block == [block[0]] + block[1..];
      assert forall i :: 0 < i < |block| ==> block[i] == block[1..][i - 1];
    }
  }

  /** What the lane-wise form answers. */
  predicate WideAccepts(s: seq<Byte>, n: nat) {
    if n == 0 then s == [] else Accepts(s, n)
  }

  /** `codes_in_range_avx2` */
  method CodesInRangeAvx2(encoded: seq<Byte>, n: nat) returns (ok: bool)
    ensures ok == WideAccepts(encoded, n)
  {
    hide Accepts;
    if n == 0 {
      return encoded == [];
    }
    if n > 255 {
      ok := CodesInRangeScalar(encoded, n);
      return;
    }
    var threshold: Byte := n - 1;
    var i := 0;
    assert encoded[0..] == encoded;
    while i + LANES <= |encoded|
      invariant 0 <= i <= |encoded|
      invariant Accepts(encoded, n) == Accepts(encoded[i..], n)
    {
      var v := encoded[i..i + LANES];
      assert encoded[i..] == v + encoded[i + LANES..];
      if true in CmpEq(v, ESCAPE) {
        ok := CodesInRangeScalar(encoded, n);
        return;
      }
      assert forall k :: 0 <= k < LANES ==> v[k] != ESCAPE by {
        assert forall k :: 0 <= k < LANES ==> CmpEq(v, ESCAPE)[k] in CmpEq(v, ESCAPE);
      }
      AcceptsPlainBlock(v, encoded[i + LANES..], n);
      var oob := SubsEpu8(v, threshold);
      if exists k :: 0 <= k < LANES && !CmpEq(oob, 0)[k] {
        var k :| 0 <= k < LANES && !CmpEq(oob, 0)[k];
        assert v[k] >= n;
        return false;
      }
      forall k | 0 <= k < LANES ensures v[k] < n {
        assert CmpEq(oob, 0)[k];
      }
      i := i + LANES;
    }
    ok := CodesInRangeScalar(encoded[i..], n);
  }

  /** Nothing but escape pairs. */
  predicate EscapePairs(s: seq<Byte>) {
    |s| % 2 == 0 && forall i :: 0 <= i < |s| && i % 2 == 0 ==> s[i] == ESCAPE
  }

  lemma {:induction false} AcceptsZeroSymbols(s: seq<Byte>)
    ensures Accepts(s, 0) <==> EscapePairs(s)
    decreases |s|
  {
    if |s| >= 2 {
      AcceptsZeroSymbols(s[2..]);
      if s[0] == ESCAPE {
        if EscapePairs(s[2..]) {
          forall i | 0 <= i < |s| && i % 2 == 0 ensures s[i] == ESCAPE {
            assert i >= 2 ==> s[i] == s[2..][i - 2];
          }
        }
        if EscapePairs(s) {
          forall i | 0 <= i < |s| - 2 && i % 2 == 0 ensures s[2..][i] == ESCAPE {
            assert s[2..][i] == s[i + 2];
          }
        }
      }
    }
  }

  /**
   * The two guards agree on every byte string and every table, except that with zero
   * symbols the lane-wise guard refuses non-empty streams of escape pairs.
   */
  lemma GuardsAgreeIff(s: seq<Byte>, n: nat)
    ensures WideAccepts(s, n) == Accepts(s, n) <==> !(n == 0 && s != [] && EscapePairs(s))
  {
    if n == 0 {
      AcceptsZeroSymbols(s);
    }
  }

  /** The smallest stream on which they differ: one literal byte under an empty table. */
  lemma GuardsDifferOnOneLiteral(b: Byte)
    ensures Accepts([ESCAPE, b], 0) && !WideAccepts([ESCAPE, b], 0)
  {
    assert [ESCAPE, b][2..] == [];
  }

  // ----- decoding -----

  /** What an accepted stream stands for. */
  function Meaning(table: Table, s: seq<Byte>): seq<Byte>
    requires Accepts(s, |table|)
  {
    Expand(table, Parse(s, |table|))
  }

  lemma MeaningStep(table: Table, s: seq<Byte>)
    requires Accepts(s, |table|) && s != []
    ensures Meaning(table, s) ==
            if s[0] == ESCAPE then [s[1]] + Meaning(table, s[2..]) else table[s[0]] + Meaning(table, s[1..])
  {
    var codes := Parse(s, |table|);
    if s[0] == ESCAPE {
      assert codes[1..] == Parse(s[2..], |table|);
    } else {
      assert codes[1..] == Parse(s[1..], |table|);
    }
  }

  lemma MeaningOfNothing(table: Table)
    ensures Accepts([], |table|) && Meaning(table, []) == []
  {
  }

  lemma AcceptsStep(s: seq<Byte>, n: nat)
    requires Accepts(s, n) && s != []
    ensures if s[0] == ESCAPE then |s| >= 2 && Accepts(s[2..], n) else s[0] < n && Accepts(s[1..], n)
  {
  }

  /**
   * The decode loop of fsst-rs, which indexes the table without a check: under the
   * guard every index is inside the table and every literal inside the stream.
   */
  method DecodeUnchecked(table: Table, encoded: seq<Byte>) returns (plain: seq<Byte>)
    requires Accepts(encoded, |table|)
    ensures plain == Meaning(table, encoded)
  {
    hide Accepts, Meaning;
    plain := [];
    var i := 0;
    assert encoded[0..] == encoded;
    while i < |encoded|
      invariant 0 <= i <= |encoded|
      invariant Accepts(encoded[i..], |table|)
      invariant Meaning(table, encoded) == plain + Meaning(table, encoded[i..])
    {
      ghost var rest := encoded[i..];
      AcceptsStep(rest, |table|);
      MeaningStep(table, rest);
      var code := encoded[i];
      if code == ESCAPE {
        assert rest[2..] == encoded[i + 2..] && rest[1] == encoded[i + 1];
        plain := plain + [encoded[i + 1]];
        i := i + 2;
      } else {
        assert rest[1..] == encoded[i + 1..];
        plain := plain + table[code];
        i := i + 1;
      }
    }
    MeaningOfNothing(table);
    assert encoded[i..] == [];
  }

  /** `codes_in_range`, on a processor with or without AVX2. */
  predicate InRange(wide: bool, s: seq<Byte>, n: nat) { if wide then WideAccepts(s, n) else Accepts(s, n) }

  lemma InRangeIsAccepted(wide: bool, s: seq<Byte>, n: nat)
    requires InRange(wide, s, n)
    ensures Accepts(s, n)
  {
  }

  /** `Codec::decompress` as a function: foreign streams degrade to empty. */
  function Decompressed(table: Table, wide: bool, encoded: seq<Byte>): seq<Byte> {
    if encoded == [] || !InRange(wide, encoded, |table|) then []
    else
      InRangeIsAccepted(wide, encoded, |table|);
      Meaning(table, encoded)
  }

  /** `Codec::decompress` */
  method Decompress(table: Table, wide: bool, encoded: seq<Byte>) returns (plain: seq<Byte>)
    ensures plain == Decompressed(table, wide, encoded)
  {
    if encoded == [] {
      return [];
    }
    var ok;
    if wide {
      ok := CodesInRangeAvx2(encoded, |table|);
    } else {
      ok := CodesInRangeScalar(encoded, |table|);
    }
    if !ok {
      return [];
    }
    plain := DecodeUnchecked(table, encoded);
  }

  lemma {:induction false} ParseOfSerialize(codes: seq<Code>, n: nat)
    requires InTable(codes, n) && InTable(codes, 256)
    ensures Accepts(Serialize(codes), n) && Parse(Serialize(codes), n) == codes
  {
    AcceptsSerialized(codes, n);
    if codes != [] {
      var s, rest := Serialize(codes), Serialize(codes[1..]);
      ParseOfSerialize(codes[1..], n);
      match codes[0]
      case Sym(i) => assert s[1..] == rest;
      case Lit(b) => assert s[2..] == rest;
    }
  }

  lemma {:induction false} NoSymbolsNoPlain(table: Table, codes: seq<Code>)
    requires InTable(codes, |table|) && |table| == 0
    ensures Expand(table, codes) == [] <==> codes == []
  {
  }

  /**
   * Any stream built by matching plaintext against the table, whatever matches are
   * chosen, decodes to that plaintext - except on a processor with AVX2 when the table
   * is empty and the plaintext is not: there the guard drops it.
   */
  lemma DecompressOfCodesIff(table: Table, wide: bool, codes: seq<Code>)
    requires InTable(codes, |table|) && InTable(codes, 256)
    ensures Decompressed(table, wide, Serialize(codes)) == Expand(table, codes)
       <==> !(wide && |table| == 0 && Expand(table, codes) != [])
  {
    ParseOfSerialize(codes, |table|);
    if |table| == 0 {
      NoSymbolsNoPlain(table, codes);
    }
  }

  /**
   * An encoder: at each position `choose` may propose a symbol; it is taken if it
   * exists, is not empty and matches there, otherwise the byte is escaped.
   */
  function Encode(table: Table, choose: nat -> Option<nat>, plain: seq<Byte>, pos: nat): (codes: seq<Code>)
    requires pos <= |plain|
    ensures InTable(codes, |table|) && InTable(codes, 256)
    decreases |plain| - pos
  {
    if pos == |plain| then []
    else if choose(pos).Some? && choose(pos).value < |table| && choose(pos).value < ESCAPE
            && |table[choose(pos).value]| > 0 && Matches(plain, pos, table[choose(pos).value]) then
      [Sym(choose(pos).value)] + Encode(table, choose, plain, pos + |table[choose(pos).value]|)
    else [Lit(plain[pos])] + Encode(table, choose, plain, pos + 1)
  }

  lemma {:induction false} ExpandOfEncode(table: Table, choose: nat -> Option<nat>, plain: seq<Byte>, pos: nat)
    requires pos <= |plain|
    ensures Expand(table, Encode(table, choose, plain, pos)) == plain[pos..]
    decreases |plain| - pos
  {
    if pos < |plain| {
      var codes := Encode(table, choose, plain, pos);
      var width := if codes[0].Sym? then |table[codes[0].index]| else 1;
      ExpandOfEncode(table, choose, plain, pos + width);
      assert codes[1..] == Encode(table, choose, plain, pos + width);
      assert plain[pos..] == plain[pos..pos + width] + plain[pos + width..];
    }
  }

  /** `Codec::compress` for some choice of matches. */
  function Compressed(table: Table, choose: nat -> Option<nat>, plain: seq<Byte>): seq<Byte> {
    if plain == [] then [] else Serialize(Encode(table, choose, plain, 0))
  }

  /**
   * Compressing and decompressing gives the row back exactly when the table has a symbol, the row is empty, or AVX2 is
   * absent.
   */
  lemma DecompressOfCompressIff(table: Table, wide: bool, choose: nat -> Option<nat>, plain: seq<Byte>)
    ensures Decompressed(table, wide, Compressed(table, choose, plain)) == plain
       <==> |table| > 0 || plain == [] || !wide
  {
    ExpandOfEncode(table, choose, plain, 0);
    assert plain[0..] == plain;
    hide Decompressed, Serialize, Encode, Expand;
    if plain == [] {
      DecompressOfEmpty(table, wide);
    } else {
      DecompressOfCodesIff(table, wide, Encode(table, choose, plain, 0));
    }
  }

  lemma DecompressOfEmpty(table: Table, wide: bool)
    ensures Decompressed(table, wide, []) == []
  {
  }
}
