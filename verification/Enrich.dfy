/** Assembling documentation context within a budget: the best hit, one from another room, cut on characters. */
module Enrich {
  import opened Results
  import opened Utf8

  const CHARS_PER_TOKEN: nat := 4
  const USIZE: nat := 0x1_0000_0000_0000_0000

  /** The line feed, the ellipsis character and "[truncated]" in UTF-8. */
  const TRUNCATED_MARK: seq<Scalar> := [10, 0x2026, 91, 116, 114, 117, 110, 99, 97, 116, 101, 100, 93]

  const BLANK_LINE: seq<Scalar> := [10, 10]

  /** A search hit; `header` is its formatted heading line. */
  datatype Hit = Hit(header: seq<int>, room: Option<string>, body: seq<int>)

  // ----- selection -----

  function FirstOtherRoom(hits: seq<Hit>, room: Option<string>): Option<Hit> {
    if hits == [] then None else if hits[0].room != room then Some(hits[0]) else FirstOtherRoom(hits[1..], room)
  }

  function SelectRelevant(hits: seq<Hit>): seq<Hit> {
    if hits == [] then []
    else
      var other := FirstOtherRoom(hits[1..], hits[0].room);
      [hits[0]] + (if other.Some? then [other.value] else if |hits| > 1 then [hits[1]] else [])
  }

  lemma {:induction false} FirstOtherRoomIsFirst(hits: seq<Hit>, room: Option<string>)
    ensures FirstOtherRoom(hits, room) == None <==> forall h :: h in hits ==> h.room == room
    ensures FirstOtherRoom(hits, room) != None ==>
              exists j :: 0 <= j < |hits| && FirstOtherRoom(hits, room) == Some(hits[j]) && hits[j].room != room &&
                          forall i :: 0 <= i < j ==> hits[i].room == room
  {
    if hits == [] {
    } else if hits[0].room != room {
      assert hits[0] in hits;
    } else {
      FirstOtherRoomIsFirst(hits[1..], room);
      if FirstOtherRoom(hits[1..], room) != None {
        var j :| 0 <= j < |hits| - 1 && FirstOtherRoom(hits[1..], room) == Some(hits[1..][j]) &&
            hits[1..][j].room != room &&
                 forall i :: 0 <= i < j ==> hits[1..][i].room == room;
        assert FirstOtherRoom(hits, room) == Some(hits[j + 1]);
        forall i | 0 <= i < j + 1 ensures hits[i].room == room {
          if i > 0 {
            assert hits[1..][i - 1] == hits[i];
          }
        }
      }
    }
  }

  /** The top hit always, and then the best hit of another room, or the next hit when all share one room. */
  lemma SelectionIsTopPlusBreadth(hits: seq<Hit>)
    requires hits != []
    ensures var sel := SelectRelevant(hits);
            sel[0] == hits[0] && |sel| == (if |hits| == 1 then 1 else 2)
    ensures |hits| > 1 ==>
              exists j :: 0 < j < |hits| && SelectRelevant(hits)[1] == hits[j] &&
                          (forall i :: 0 < i < j ==> hits[i].room == hits[0].room) &&
                          (hits[j].room == hits[0].room ==> j == 1 && forall h :: h in hits ==> h.room == hits[0].room)
  {
    var rest, room := hits[1..], hits[0].room;
    FirstOtherRoomIsFirst(rest, room);
    if |hits| > 1 {
      assert rest[0] in rest;
      if FirstOtherRoom(rest, room) == None {
        assert SelectRelevant(hits)[1] == hits[1];
        forall h | h in hits ensures h.room == room {
          assert h == hits[0] || h in rest;
        }
      } else {
        var j :| 0 <= j < |rest| && FirstOtherRoom(rest, room) == Some(rest[j]) && rest[j].room != room &&
                 forall i :: 0 <= i < j ==> rest[i].room == room;
        assert SelectRelevant(hits)[1] == hits[j + 1];
        forall i | 0 < i < j + 1 ensures hits[i].room == room {
          assert rest[i - 1] == hits[i];
        }
      }
    }
  }

  // ----- shares -----

  /** `saturating_mul` on 64-bit sizes. */
  function TotalChars(maxTokens: nat): nat {
    if maxTokens * CHARS_PER_TOKEN < USIZE then maxTokens * CHARS_PER_TOKEN else USIZE - 1
  }

  /** What hit `i` of `n` may use; the doubling wraps at 64 bits. */
  function Share(i: nat, n: nat, maxTokens: nat): nat {
    var total := TotalChars(maxTokens);
    if n == 1 then total else if i == 0 then total * 2 % USIZE / 3 else total / 3
  }

  /** Two hits together never get more than the budget, even where the doubling wraps. */
  lemma SharesWithinBudget(maxTokens: nat)
    ensures var budget := if maxTokens * 4 < 0x1_0000_0000_0000_0000 then maxTokens * 4 else 0xFFFF_FFFF_FFFF_FFFF;
            Share(0, 2, maxTokens) + Share(1, 2, maxTokens) <= budget == Share(0, 1, maxTokens)
  {
    var total := TotalChars(maxTokens);
    assert total * 2 % USIZE <= total * 2;
  }

  /** The primary hit gets the larger share exactly for budgets under 2^61 tokens. */
  lemma PrimaryShareIsLargerIff(maxTokens: nat)
    ensures Share(0, 2, maxTokens) >= Share(1, 2, maxTokens) <==> maxTokens < 0x2000_0000_0000_0000
  {
    var total := TotalChars(maxTokens);
    if maxTokens < 0x2000_0000_0000_0000 {
      assert total * 2 % USIZE == total * 2;
    } else {
      assert total * 2 % USIZE == total * 2 - USIZE;
    }
  }

  // ----- assembly -----

  function Block(h: Hit, share: nat): seq<int> {
    var body := Truncated(h.body, if share < |h.header| then 0 else share - |h.header|);
    h.header + body + (if |body| < |h.body| then Encode(TRUNCATED_MARK) else []) + Encode(BLANK_LINE)
  }

  /** The blocks of `selected[..k]`, one after the other. */
  function Blocks(selected: seq<Hit>, maxTokens: nat, k: nat): seq<int>
    requires k <= |selected|
  {
    if k == 0 then []
    else Blocks(selected, maxTokens, k - 1) + Block(selected[k - 1], Share(k - 1, |selected|, maxTokens))
  }

  method Assemble(selected: seq<Hit>, maxTokens: nat) returns (out: seq<int>)
    ensures out == Blocks(selected, maxTokens, |selected|)
  {
    hide Encode, Truncated, EncodeOne;
    var totalChars := if maxTokens * CHARS_PER_TOKEN < USIZE then maxTokens * CHARS_PER_TOKEN else USIZE - 1;
    var n := |selected|;
    out := [];
    for i := 0 to n
      invariant out == Blocks(selected, maxTokens, i)
    {
      var h := selected[i];
      var share := if n == 1 then totalChars else if i == 0 then totalChars * 2 % USIZE / 3 else totalChars / 3;
      var block := h.header;
      var bodyBudget := if share < |h.header| then 0 else share - |h.header|;
      var body := TruncateOnCharBoundary(h.body, bodyBudget);
      block := block + body;
      if |body| < |h.body| {
        block := block + Encode(TRUNCATED_MARK);
      }
      block := block + Encode(BLANK_LINE);
      assert block == Block(h, Share(i, n, maxTokens));
      out := out + block;
    }
  }

  lemma FixedTextLengths()
    ensures |Encode(TRUNCATED_MARK)| == 15 && |Encode(BLANK_LINE)| == 2
  {
    hide Encode;
    var word: seq<Scalar> := [91, 116, 114, 117, 110, 99, 97, 116, 101, 100, 93];
    AsciiLength(word);
    LengthCons(0x2026, word);
    LengthCons(10, [0x2026] + word);
    assert TRUNCATED_MARK == [10] + ([0x2026] + word);
    AsciiLength(BLANK_LINE);
  }

  /** A block is cut exactly when it does not fit its share, and overruns it by 17 bytes at most. */
  lemma BlockFitsShare(h: Hit, share: nat)
    ensures |Block(h, share)| <= (if share < |h.header| then |h.header| else share) + 17
    ensures |h.header| + |h.body| <= share ==> Block(h, share) == h.header + h.body + Encode(BLANK_LINE)
  {
    hide Encode;
    FixedTextLengths();
  }

  /** The line feed, the ellipsis and "[truncated]", as bytes; and an empty line. */
  lemma FixedTextBytes()
    ensures Encode(TRUNCATED_MARK) ==
            [10, 0xE2, 0x80, 0xA6, 0x5B, 0x74, 0x72, 0x75, 0x6E, 0x63, 0x61, 0x74, 0x65, 0x64, 0x5D]
    ensures Encode(BLANK_LINE) == [10, 10]
  {
    hide Encode;
    var word: seq<Scalar> := [91, 116, 114, 117, 110, 99, 97, 116, 101, 100, 93];
    AsciiIsItself(word);
    AsciiIsItself([10]);
    AsciiIsItself(BLANK_LINE);
    EncodeAppend([10], [0x2026] + word);
    EncodeAppend([0x2026], word);
    EllipsisBytes();
    assert TRUNCATED_MARK == [10] + ([0x2026] + word);
  }

  lemma EllipsisBytes()
    ensures Encode([0x2026]) == [0xE2, 0x80, 0xA6]
  {
    assert Encode([0x2026]) == EncodeOne(0x2026) + Encode([0x2026][1..]);
  }

  lemma {:induction false} AsciiIsItself(cs: seq<Scalar>)
    requires forall i :: 0 <= i < |cs| ==> cs[i] < 0x80
    ensures Encode(cs) == cs
  {
    if cs != [] {
      hide EncodeOne;
      AsciiIsItself(cs[1..]);
      OneByte(cs[0]);
    }
  }

  /**
   * Of a hit that does not fit its share, the block holds the header, the longest run of whole characters of the
   * body that still fits, and the mark.
   */
  lemma BlockIsCut(h: Hit, text: seq<Scalar>, share: nat) returns (k: nat)
    requires h.body == Encode(text)
    requires |h.body| > (if share < |h.header| then 0 else share - |h.header|)
    ensures k < |text|
    ensures Block(h, share) ==
            h.header + Encode(text[..k]) +
            [10, 0xE2, 0x80, 0xA6, 0x5B, 0x74, 0x72, 0x75, 0x6E, 0x63, 0x61, 0x74, 0x65, 0x64, 0x5D] + [10, 10]
    ensures k > 0 ==> |h.header| + |Encode(text[..k])| <= share
    ensures |h.header| + |Encode(text[..k + 1])| > share
  {
    hide Encode, Truncated;
    FixedTextBytes();
    var room := if share < |h.header| then 0 else share - |h.header|;
    k := TruncationIsLongestPrefix(text, room);
    assert text[..|text|] == text;
    EncodeMore(text, k);
    CutIsShorter(h.body, room);
  }

  lemma CutIsShorter(body: seq<int>, room: nat)
    requires |body| > room
    ensures |Truncated(body, room)| < |body|
  {
  }

  lemma EncodeMore(text: seq<Scalar>, k: nat)
    requires k <= |text|
    ensures k > 0 ==> |Encode(text[..k])| > 0
    ensures text[..0] == [] && Encode([]) == []
  {
    if k > 0 {
      EncodePrefixGrows(text, 0, k);
    }
  }

  /** With headers that fit their shares, the context is within the budget plus 17 bytes for each hit. */
  lemma ContextWithinBudget(hits: seq<Hit>, maxTokens: nat)
    requires var sel := SelectRelevant(hits);
             forall i :: 0 <= i < |sel| ==> |sel[i].header| <= Share(i, |sel|, maxTokens)
    ensures var sel := SelectRelevant(hits);
            |Blocks(sel, maxTokens, |sel|)| <= maxTokens * 4 + 17 * |sel|
  {
    hide Block, Share, TotalChars, FirstOtherRoom;
    var sel := SelectRelevant(hits);
    forall i | 0 <= i < |sel| ensures |Block(sel[i], Share(i, |sel|, maxTokens))| <= Share(i, |sel|, maxTokens) + 17 {
      BlockFitsShare(sel[i], Share(i, |sel|, maxTokens));
    }
    SharesWithinBudget(maxTokens);
    if |sel| == 2 {
      assert Blocks(sel, maxTokens, 1) == Blocks(sel, maxTokens, 0) + Block(sel[0], Share(0, 2, maxTokens));
    }
  }

  /** What the hits say in characters. */
  datatype Source = Source(header: seq<Scalar>, body: seq<Scalar>)

  /** From well-formed hits the context is well-formed UTF-8: no cut ever splits a character. */
  lemma {:induction false} ContextIsText(selected: seq<Hit>, texts: seq<Source>, maxTokens: nat, k: nat)
    returns (cs: seq<Scalar>)
    requires k <= |selected| == |texts|
    requires forall i :: 0 <= i < |selected| ==>
               selected[i].header == Encode(texts[i].header) && selected[i].body == Encode(texts[i].body)
    ensures Blocks(selected, maxTokens, k) == Encode(cs)
  {
    hide Share, Block, Encode;
    if k == 0 {
      cs := [];
      assert Encode([]) == [] by {
        AsciiLength([]);
      }
    } else {
      var before := ContextIsText(selected, texts, maxTokens, k - 1);
      var block := BlockIsText(selected[k - 1], texts[k - 1], Share(k - 1, |selected|, maxTokens));
      cs := before + block;
      EncodeAppend(before, block);
    }
  }

  lemma BlockIsText(h: Hit, text: Source, share: nat) returns (cs: seq<Scalar>)
    requires h.header == Encode(text.header) && h.body == Encode(text.body)
    ensures Block(h, share) == Encode(cs)
  {
    hide Encode, Truncated;
    var budget := if share < |h.header| then 0 else share - |h.header|;
    var k := TruncationIsLongestPrefix(text.body, budget);
    var mark := if |Truncated(h.body, budget)| < |h.body| then TRUNCATED_MARK else [];
    AsciiLength([]);
    var kept := text.header + text.body[..k];
    cs := kept + mark + BLANK_LINE;
    EncodeAppend(text.header, text.body[..k]);
    EncodeAppend(kept, mark);
    EncodeAppend(kept + mark, BLANK_LINE);
  }
}
