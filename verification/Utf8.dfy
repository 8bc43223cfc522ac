/** UTF-8 as section 3 of RFC 3629 defines it, and the cut that never splits a character. */
module Utf8 {
  type Scalar = c: int | 0 <= c < 0xD800 || 0xE000 <= c <= 0x10FFFF

  function EncodeOne(c: Scalar): (r: seq<int>)
    ensures 1 <= |r| <= 4
    ensures !IsContinuation(r[0]) && forall k :: 0 < k < |r| ==> IsContinuation(r[k])
  {
    if c < 0x80 then [c]
    else if c < 0x800 then [0xC0 + c / 64, 0x80 + c % 64]
    else if c < 0x10000 then [0xE0 + c / 4096, 0x80 + c / 64 % 64, 0x80 + c % 64]
    else [0xF0 + c / 262144, 0x80 + c / 4096 % 64, 0x80 + c / 64 % 64, 0x80 + c % 64]
  }

  /** The layout of section 3 of RFC 3629: the length by range, six bits in every byte after the first. */
  lemma OneCharacter(c: Scalar)
    ensures var r := EncodeOne(c);
            && |r| == (if c <= 0x7F then 1 else if c <= 0x7FF then 2 else if c <= 0xFFFF then 3 else 4)
            && (forall i :: 0 < i < |r| ==> 0x80 <= r[i] <= 0xBF)
            && (|r| == 1 ==> r[0] == c)
            && (|r| == 2 ==> 0xC2 <= r[0] <= 0xDF && c == (r[0] - 0xC0) * 64 + (r[1] - 0x80))
            && (|r| == 3 ==> 0xE0 <= r[0] <= 0xEF && c == ((r[0] - 0xE0) * 64 + (r[1] - 0x80)) * 64 + (r[2] - 0x80))
            && (|r| == 4 ==>
                  && 0xF0 <= r[0] <= 0xF4
                  && c == (((r[0] - 0xF0) * 64 + (r[1] - 0x80)) * 64 + (r[2] - 0x80)) * 64 + (r[3] - 0x80))
  {
    if c < 0x800 {
    } else if c < 0x10000 {
      SixBits(c);
    } else {
      SixBits(c);
      SixBits(c / 64);
    }
  }

  lemma SixBits(c: nat)
    ensures c / 64 / 64 == c / 4096 && c == c / 64 * 64 + c % 64
    ensures c / 4096 / 64 == c / 262144
  {
  }

  function Encode(cs: seq<Scalar>): seq<int> {
    if cs == [] then [] else EncodeOne(cs[0]) + Encode(cs[1..])
  }

  predicate IsContinuation(b: int) {
    0x80 <= b < 0xC0
  }

  /** `is_char_boundary`: the ends, and every position that does not hold a continuation byte. */
  predicate IsBoundary(s: seq<int>, i: nat) {
    i == 0 || i == |s| || (i < |s| && !IsContinuation(s[i]))
  }

  lemma {:induction false} EncodeAppend(a: seq<Scalar>, b: seq<Scalar>)
    ensures Encode(a + b) == Encode(a) + Encode(b)
  {
    hide EncodeOne;
    if a == [] {
      assert a + b == b;
    } else {
      EncodeAppend(a[1..], b);
      assert (a + b)[1..] == a[1..] + b;
    }
  }

  lemma EncodeLeadsWell(cs: seq<Scalar>)
    ensures cs != [] ==> Encode(cs) != [] && !IsContinuation(Encode(cs)[0])
  {
  }

  lemma LengthCons(c: Scalar, cs: seq<Scalar>)
    ensures |Encode([c] + cs)| == |EncodeOne(c)| + |Encode(cs)|
  {
    hide EncodeOne;
    assert ([c] + cs)[1..] == cs;
  }

  lemma {:induction false} AsciiLength(cs: seq<Scalar>)
    requires forall i :: 0 <= i < |cs| ==> cs[i] < 0x80
    ensures |Encode(cs)| == |cs|
  {
    if cs == [] {
    } else {
      hide EncodeOne;
      AsciiLength(cs[1..]);
      assert |EncodeOne(cs[0])| == 1 by {
        OneByte(cs[0]);
      }
    }
  }

  lemma OneByte(c: Scalar)
    requires c < 0x80
    ensures EncodeOne(c) == [c]
  {
  }

  /** In encoded text a position is a boundary exactly when whole characters end there. */
  lemma {:induction false} BoundaryIffWholeCharacters(cs: seq<Scalar>, i: nat)
    requires i <= |Encode(cs)|
    ensures IsBoundary(Encode(cs), i) <==> exists k: nat :: k <= |cs| && |Encode(cs[..k])| == i
    decreases |cs|
  {
    hide EncodeOne;
    if i == 0 {
      assert |Encode(cs[..0])| == i;
    } else if cs == [] {
    } else {
      var first, rest := EncodeOne(cs[0]), cs[1..];
      var s := Encode(cs);
      forall k: nat | k <= |rest| ensures Encode(cs[..k + 1]) == first + Encode(rest[..k]) {
        assert cs[..k + 1][1..] == rest[..k];
      }
      if i < |first| {
        assert s[i] == first[i];
        forall k: nat | k <= |cs| ensures |Encode(cs[..k])| != i {
          if k > 0 {
            assert Encode(cs[..(k - 1) + 1]) == first + Encode(rest[..k - 1]);
          }
        }
      } else {
        var j := i - |first|;
        BoundaryIffWholeCharacters(rest, j);
        EncodeLeadsWell(rest);
        assert IsBoundary(s, i) <==> IsBoundary(Encode(rest), j);
        if k: nat :| k <= |rest| && |Encode(rest[..k])| == j {
          assert |Encode(cs[..k + 1])| == i;
        }
        if k: nat :| k <= |cs| && |Encode(cs[..k])| == i {
          assert Encode(cs[..(k - 1) + 1]) == first + Encode(rest[..k - 1]);
        }
      }
    }
  }

  /** The last boundary at or before `end`. */
  function LastBoundary(s: seq<int>, end: nat): (r: nat)
    ensures r <= end && IsBoundary(s, r)
    ensures forall i: nat :: r < i <= end ==> !IsBoundary(s, i)
  {
    if IsBoundary(s, end) then end else LastBoundary(s, end - 1)
  }

  function Truncated(s: seq<int>, maxBytes: nat): seq<int> {
    if |s| <= maxBytes then s else s[..LastBoundary(s, maxBytes)]
  }

  /** `truncate_on_char_boundary`. */
  method TruncateOnCharBoundary(s: seq<int>, maxBytes: nat) returns (r: seq<int>)
    ensures r == Truncated(s, maxBytes)
  {
    if |s| <= maxBytes {
      return s;
    }
    var end := maxBytes;
    while end > 0 && !IsBoundary(s, end)
      invariant 0 <= end <= maxBytes
      invariant LastBoundary(s, end) == LastBoundary(s, maxBytes)
    {
      end := end - 1;
    }
    return s[..end];
  }

  lemma EncodePrefixGrows(cs: seq<Scalar>, k: nat, j: nat)
    requires k <= j <= |cs|
    ensures Encode(cs[..k]) <= Encode(cs[..j])
    ensures k < j ==> |Encode(cs[..k])| < |Encode(cs[..j])|
  {
    EncodeAppend(cs[..k], cs[k..j]);
    assert cs[..j] == cs[..k] + cs[k..j];
    EncodeLeadsWell(cs[k..j]);
  }

  /**
   * The cut keeps exactly the longest run of whole characters that fits, and gives up at most three
   * bytes of the limit.
   */
  lemma TruncationIsLongestPrefix(cs: seq<Scalar>, maxBytes: nat) returns (k: nat)
    ensures k <= |cs| && Truncated(Encode(cs), maxBytes) == Encode(cs[..k])
    ensures |Encode(cs[..k])| <= maxBytes
    ensures forall j: nat :: k < j <= |cs| ==> |Encode(cs[..j])| > maxBytes
    ensures k < |cs| ==> |Encode(cs[..k])| + 3 >= maxBytes
  {
    hide EncodeOne;
    var s := Encode(cs);
    assert cs[..|cs|] == cs;
    if |s| <= maxBytes {
      k := |cs|;
    } else {
      var end := LastBoundary(s, maxBytes);
      BoundaryIffWholeCharacters(cs, end);
      k :| k <= |cs| && |Encode(cs[..k])| == end;
      EncodePrefixGrows(cs, k, |cs|);
      forall j: nat | k < j <= |cs| ensures |Encode(cs[..j])| > maxBytes {
        EncodePrefixGrows(cs, k, j);
        EncodePrefixGrows(cs, j, |cs|);
        BoundaryIffWholeCharacters(cs, |Encode(cs[..j])|);
      }
      if k < |cs| {
        assert cs[..k + 1] == cs[..k] + [cs[k]];
        EncodeAppend(cs[..k], [cs[k]]);
        assert Encode([cs[k]]) == EncodeOne(cs[k]) + Encode([cs[k]][1..]);
      }
    }
  }
}
