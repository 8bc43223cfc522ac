/** `crabcc edit`: replacing a span of whole lines, as a lens between a file and its span. */
module Edit {
  import opened Results
  import opened Text

  datatype SpanError = InvalidSpan | PastEnd

  /** A 1-indexed inclusive line range as a 0-indexed half-open one. */
  function SpanBounds(n: nat, start: int, end: int): (r: Result<(nat, nat), SpanError>)
    ensures r.Ok? ==> r.value.0 < r.value.1 <= n
  {
    if start < 1 || end < start then Err(InvalidSpan)
    else if end > n then Err(PastEnd)
    else Ok((start - 1, end))
  }

  function Lines(src: string): (lines: seq<string>)
    ensures |lines| >= 1
  {
    Split(src, '\n')
  }

  function Extract(src: string, start: int, end: int): Result<string, SpanError> {
    match SpanBounds(|Lines(src)|, start, end)
    case Err(e) => Err(e)
    case Ok((s, e)) => Ok(Join(Lines(src)[s..e], '\n'))
  }

  /** `src.contains("\r\n")` */
  predicate HasCrlf(src: string) { exists i :: 0 <= i < |src| && CrlfAt(src, i) }

  predicate CrlfAt(src: string, i: int) { 0 <= i < |src| - 1 && src[i] == '\r' && src[i + 1] == '\n' }

  /** One update line in the file's own line ending. */
  function Adapt(line: string, crlf: bool): string {
    if crlf then StripLast(line, '\r') + "\r" else StripLast(line, '\r')
  }

  function AdaptAll(lines: seq<string>, crlf: bool): (r: seq<string>)
    ensures |r| == |lines|
    ensures forall i :: 0 <= i < |lines| ==> r[i] == Adapt(lines[i], crlf)
  {
    if lines == [] then [] else [Adapt(lines[0], crlf)] + AdaptAll(lines[1..], crlf)
  }

  /** The lines of an update, before they get the file's line ending. */
  function UpdateLines(update: string): (lines: seq<string>)
    ensures |lines| >= 1
  {
    Split(StripLast(update, '\n'), '\n')
  }

  /** The lines that an update puts in the place of the span. */
  function NewLines(update: string, crlf: bool): (r: seq<string>)
    ensures |r| >= 1
  {
    AdaptAll(UpdateLines(update), crlf)
  }

  function Splice(src: string, start: int, end: int, update: string): Result<string, SpanError> {
    match SpanBounds(|Lines(src)|, start, end)
    case Err(e) => Err(e)
    case Ok((s, e)) => Ok(Join(Lines(src)[..s] + NewLines(update, HasCrlf(src)) + Lines(src)[e..], '\n'))
  }

  lemma {:induction false} AdaptAllSnoc(lines: seq<string>, line: string, crlf: bool)
    ensures AdaptAll(lines + [line], crlf) == AdaptAll(lines, crlf) + [Adapt(line, crlf)]
  {
    if lines == [] {
      assert lines + [line] == [line];
    } else {
      assert (lines + [line])[1..] == lines[1..] + [line];
      AdaptAllSnoc(lines[1..], line, crlf);
    }
  }

  /** `splice_span`: the output vector grows by the lines before, the update and the lines after. */
  method SpliceSpan(src: string, start: int, end: int, update: string) returns (r: Result<string, SpanError>)
    ensures r == Splice(src, start, end, update)
    ensures r.Ok? <==> 1 <= start <= end <= |Lines(src)|
    ensures r.Ok? ==> Replaces(Lines(r.value), Lines(src), start - 1, end, UpdateLines(update), HasCrlf(src))
  {
    hide Adapt, Split, Join, AdaptAll, HasCrlf, Replaces;
    if 1 <= start <= end <= |Lines(src)| {
      SplicedLines(src, start, end, update);
    }
    var lines := Split(src, '\n');
    var bounds := SpanBounds(|lines|, start, end);
    if bounds.Err? {
      return Err(bounds.error);
    }
    var (s, e) := bounds.value;
    var crlf := HasCrlf(src);
    var newLines := Split(StripLast(update, '\n'), '\n');
    var out := lines[..s];
    ghost var done := AdaptAll([], crlf);
    assert done == [] && newLines[..0] == [];
    for i := 0 to |newLines|
      invariant out == lines[..s] + AdaptAll(newLines[..i], crlf)
    {
      AdaptAllSnoc(newLines[..i], newLines[i], crlf);
      assert newLines[..i + 1] == newLines[..i] + [newLines[i]];
      out := out + [Adapt(newLines[i], crlf)];
    }
    assert newLines[..|newLines|] == newLines;
    out := out + lines[e..];
    return Ok(Join(out, '\n'));
  }

  // ----- the lines of the result -----

  lemma AdaptedLacksNewline(line: string, crlf: bool)
    requires '\n' !in line
    ensures '\n' !in Adapt(line, crlf)
  {
  }

  lemma NewLinesLackNewline(update: string, crlf: bool)
    ensures forall l :: l in NewLines(update, crlf) ==> '\n' !in l
  {
    var newLines := Split(StripLast(update, '\n'), '\n');
    SplitPiecesLackSeparator(StripLast(update, '\n'), '\n');
    forall i | 0 <= i < |newLines| ensures '\n' !in NewLines(update, crlf)[i] {
      assert newLines[i] in newLines;
      AdaptedLacksNewline(newLines[i], crlf);
    }
  }

  /** The result is, line by line, the old lines around the adapted update. */
  lemma LinesOfSplice(src: string, start: int, end: int, update: string)
    requires Splice(src, start, end, update).Ok?
    ensures Lines(Splice(src, start, end, update).value) ==
            Lines(src)[..start - 1] + NewLines(update, HasCrlf(src)) + Lines(src)[end..]
  {
    hide Split, Join, NewLines, HasCrlf;
    var newLines := NewLines(update, HasCrlf(src));
    NewLinesLackNewline(update, HasCrlf(src));
    SplitPiecesLackSeparator(src, '\n');
    SplitOfJoin(Lines(src)[..start - 1] + newLines + Lines(src)[end..], '\n');
  }

  /** The update line without the carriage return at its end, if it has one, and one of its own in a CRLF file. */
  predicate IsUpdateLine(line: string, raw: string, crlf: bool) {
    var text := if EndsWith(raw, "\r") then raw[..|raw| - 1] else raw;
    line == if crlf then text + "\r" else text
  }

  /** `out` is `lines` with the lines from `s` to `e` replaced by the update's, in the file's ending. */
  predicate Replaces(out: seq<string>, lines: seq<string>, s: nat, e: nat, raw: seq<string>, crlf: bool)
    requires s <= e <= |lines|
  {
    && |out| == s + |raw| + (|lines| - e) && out[..s] == lines[..s] && out[s + |raw|..] == lines[e..]
    && forall i :: 0 <= i < |raw| ==> IsUpdateLine(out[s + i], raw[i], crlf)
  }

  lemma AdaptedLine(raw: string, crlf: bool)
    ensures IsUpdateLine(Adapt(raw, crlf), raw, crlf)
  {
  }

  lemma NewLinesAreUpdateLines(update: string, crlf: bool)
    ensures |NewLines(update, crlf)| == |UpdateLines(update)|
    ensures forall i :: 0 <= i < |UpdateLines(update)| ==>
              IsUpdateLine(NewLines(update, crlf)[i], UpdateLines(update)[i], crlf)
  {
    hide Adapt, UpdateLines, IsUpdateLine;
    forall i | 0 <= i < |UpdateLines(update)|
      ensures IsUpdateLine(NewLines(update, crlf)[i], UpdateLines(update)[i], crlf)
    {
      AdaptedLine(UpdateLines(update)[i], crlf);
    }
  }

  /** The update lines are the update, cut at its newlines; a newline at its very end adds no line. */
  lemma UpdateLinesAreTheUpdate(update: string)
    ensures forall l :: l in UpdateLines(update) ==> '\n' !in l
    ensures Join(UpdateLines(update), '\n') == if EndsWith(update, "\n") then update[..|update| - 1] else update
  {
    hide Split, Join;
    SplitPiecesLackSeparator(StripLast(update, '\n'), '\n');
    JoinOfSplit(StripLast(update, '\n'), '\n');
  }

  /** The result is, line by line: the lines before, the update's lines in the file's ending, the lines after. */
  lemma SplicedLines(src: string, start: int, end: int, update: string)
    requires 1 <= start <= end <= |Lines(src)|
    ensures Splice(src, start, end, update).Ok?
    ensures Replaces(Lines(Splice(src, start, end, update).value), Lines(src), start - 1, end, UpdateLines(update),
                     HasCrlf(src))
  {
    SpliceOkIff(src, start, end, update);
    LinesOfSplice(src, start, end, update);
    NewLinesAreUpdateLines(update, HasCrlf(src));
    hide Lines, NewLines, UpdateLines, HasCrlf, Splice, IsUpdateLine;
    var newLines, out := NewLines(update, HasCrlf(src)), Lines(Splice(src, start, end, update).value);
    assert out[..start - 1] == Lines(src)[..start - 1];
    assert out[start - 1 + |newLines|..] == Lines(src)[end..];
    assert forall i :: 0 <= i < |newLines| ==> out[start - 1 + i] == newLines[i];
  }

  /** The text before line `s` and its newline. */
  function Before(lines: seq<string>, s: nat): string
    requires s <= |lines|
  {
    if s == 0 then "" else Join(lines[..s], '\n') + "\n"
  }

  /** The newline after line `e - 1` and the text after it. */
  function After(lines: seq<string>, e: nat): string
    requires e <= |lines|
  {
    if e == |lines| then "" else "\n" + Join(lines[e..], '\n')
  }

  lemma JoinAround(before: seq<string>, middle: seq<string>, after: seq<string>)
    requires |middle| >= 1
    ensures Join(before + middle + after, '\n') ==
            Before(before, |before|) + Join(middle, '\n') + After(after, 0)
  {
    hide Join;
    assert before[..|before|] == before && after[0..] == after;
    if before == [] {
      assert before + middle == middle;
    } else {
      JoinOfConcat(before, middle, '\n');
    }
    if after == [] {
      assert before + middle + after == before + middle;
    } else {
      JoinOfConcat(before + middle, after, '\n');
    }
  }

  /** Every byte outside the span stays where it is. */
  lemma OutsideIsUnchanged(src: string, start: int, end: int, update: string)
    requires Splice(src, start, end, update).Ok?
    ensures var lines := Lines(src);
            && src == Before(lines, start - 1) + Extract(src, start, end).value + After(lines, end)
            && Splice(src, start, end, update).value ==
               Before(lines, start - 1) + Join(NewLines(update, HasCrlf(src)), '\n') + After(lines, end)
  {
    hide Split, Join, NewLines, HasCrlf;
    var lines := Lines(src);
    var s := start - 1;
    JoinOfSplit(src, '\n');
    assert lines == lines[..s] + lines[s..end] + lines[end..];
    JoinAround(lines[..s], lines[s..end], lines[end..]);
    JoinAround(lines[..s], NewLines(update, HasCrlf(src)), lines[end..]);
    assert lines[..s][..s] == lines[..s] && lines[end..][0..] == lines[end..];
  }

  // ----- put then get -----

  lemma ExtractNewLines(src: string, start: int, end: int, update: string)
    requires Splice(src, start, end, update).Ok?
    ensures var newLines := NewLines(update, HasCrlf(src));
            Extract(Splice(src, start, end, update).value, start, start - 1 + |newLines|) == Ok(Join(newLines, '\n'))
  {
    LinesOfSplice(src, start, end, update);
    hide Split, Join, NewLines, HasCrlf, Splice;
    var newLines := NewLines(update, HasCrlf(src));
    var lines := Lines(Splice(src, start, end, update).value);
    assert lines[start - 1..start - 1 + |newLines|] == newLines;
  }

  lemma JoinedUpdateLines(update: string, crlf: bool)
    ensures var lines := Lines(Join(NewLines(update, crlf), '\n'));
            && |lines| == |UpdateLines(update)|
            && forall i :: 0 <= i < |lines| ==> IsUpdateLine(lines[i], UpdateLines(update)[i], crlf)
  {
    hide Split, Join, NewLines, UpdateLines, IsUpdateLine;
    NewLinesAreUpdateLines(update, crlf);
    NewLinesLackNewline(update, crlf);
    SplitOfJoin(NewLines(update, crlf), '\n');
  }

  /** Extracting the new range gives the update back, line by line, in the file's line ending. */
  lemma ExtractOfSplice(src: string, start: int, end: int, update: string)
    requires Splice(src, start, end, update).Ok?
    ensures var raw := UpdateLines(update);
            var got := Extract(Splice(src, start, end, update).value, start, start - 1 + |raw|);
            && got.Ok? && |Lines(got.value)| == |raw|
            && forall i :: 0 <= i < |raw| ==> IsUpdateLine(Lines(got.value)[i], raw[i], HasCrlf(src))
  {
    hide Lines, Join, NewLines, UpdateLines, HasCrlf, Splice, IsUpdateLine, Extract;
    NewLinesAreUpdateLines(update, HasCrlf(src));
    ExtractNewLines(src, start, end, update);
    JoinedUpdateLines(update, HasCrlf(src));
  }

  /** The lines without the carriage returns at their ends. */
  function WithoutCr(lines: seq<string>): (r: seq<string>)
    ensures |r| == |lines|
    ensures forall i :: 0 <= i < |lines| ==> r[i] == StripLast(lines[i], '\r')
  {
    seq(|lines|, i requires 0 <= i < |lines| => StripLast(lines[i], '\r'))
  }

  lemma WithoutCrOf(got: seq<string>, raw: seq<string>)
    requires |got| == |raw| && forall i :: 0 <= i < |raw| ==> '\r' !in raw[i] && IsUpdateLine(got[i], raw[i], true)
    ensures (forall i :: 0 <= i < |got| ==> EndsInCr(got[i])) && WithoutCr(got) == raw
  {
    forall i | 0 <= i < |got| ensures EndsInCr(got[i]) && StripLast(got[i], '\r') == raw[i] {
      CleanLine(got[i], raw[i]);
    }
  }

  lemma CleanLine(line: string, raw: string)
    requires '\r' !in raw && IsUpdateLine(line, raw, true)
    ensures EndsInCr(line) && StripLast(line, '\r') == raw
  {
  }

  lemma UpdateLinesLackCr(update: string)
    requires '\r' !in update
    ensures forall i :: 0 <= i < |UpdateLines(update)| ==> '\r' !in UpdateLines(update)[i]
  {
    var text := StripLast(update, '\n');
    SplitPiecesKeep(text, '\n', c => c != '\r');
    forall i | 0 <= i < |Split(text, '\n')| ensures '\r' !in Split(text, '\n')[i] {
      assert Split(text, '\n')[i] in Split(text, '\n');
    }
  }

  /**
   * Into a CRLF file an update without carriage returns goes with one at the end of each line: with those dropped
   * again it comes back but for its last newline.
   */
  lemma ExtractOfSpliceCrlf(src: string, start: int, end: int, update: string)
    requires Splice(src, start, end, update).Ok? && HasCrlf(src) && '\r' !in update
    ensures var got := Extract(Splice(src, start, end, update).value, start, start - 1 + |UpdateLines(update)|);
            && got.Ok? && (forall i :: 0 <= i < |Lines(got.value)| ==> EndsInCr(Lines(got.value)[i]))
            && Join(WithoutCr(Lines(got.value)), '\n') ==
               if EndsWith(update, "\n") then update[..|update| - 1] else update
  {
    hide Splice, Extract, HasCrlf, Lines, UpdateLines, IsUpdateLine, EndsInCr, Join, WithoutCr, EndsWith;
    ExtractOfSplice(src, start, end, update);
    UpdateLinesAreTheUpdate(update);
    UpdateLinesLackCr(update);
    var raw := UpdateLines(update);
    WithoutCrOf(Lines(Extract(Splice(src, start, end, update).value, start, start - 1 + |raw|).value), raw);
  }

  /** In an LF file an update without carriage returns comes back with at most its last newline dropped. */
  lemma ExtractOfSpliceLf(src: string, start: int, end: int, update: string)
    requires Splice(src, start, end, update).Ok? && !HasCrlf(src) && '\r' !in update
    ensures Extract(Splice(src, start, end, update).value, start, start - 1 + |NewLines(update, false)|)
         == Ok(StripLast(update, '\n'))
  {
    ExtractNewLines(src, start, end, update);
    hide Splice, Extract, HasCrlf;
    var text := StripLast(update, '\n');
    var newLines := Split(text, '\n');
    SplitPiecesKeep(text, '\n', c => c != '\r');
    forall i | 0 <= i < |newLines| ensures Adapt(newLines[i], false) == newLines[i] {
      assert newLines[i] in newLines;
      assert |newLines[i]| > 0 ==> newLines[i][|newLines[i]| - 1] in newLines[i];
    }
    assert NewLines(update, false) == newLines;
    JoinOfSplit(text, '\n');
  }

  // ----- get then put -----

  predicate EndsInCr(line: string) { |line| > 0 && line[|line| - 1] == '\r' }

  lemma AdaptKeepsIff(line: string, crlf: bool)
    ensures Adapt(line, crlf) == line <==> EndsInCr(line) == crlf
  {
    if EndsInCr(line) {
      assert line == line[..|line| - 1] + "\r";
    } else if crlf {
      assert Adapt(line, crlf)[|line|] == '\r';
    }
  }

  lemma AdaptAllKeepsIff(lines: seq<string>, crlf: bool)
    ensures AdaptAll(lines, crlf) == lines <==> forall i :: 0 <= i < |lines| ==> EndsInCr(lines[i]) == crlf
  {
    hide Adapt, AdaptAll, EndsInCr;
    forall i | 0 <= i < |lines| ensures Adapt(lines[i], crlf) == lines[i] <==> EndsInCr(lines[i]) == crlf {
      AdaptKeepsIff(lines[i], crlf);
    }
    if AdaptAll(lines, crlf) == lines {
      assert forall i :: 0 <= i < |lines| ==> Adapt(lines[i], crlf) == lines[i];
    }
  }

  /** The span has a last line to lose: it is empty and not the only one. */
  predicate EndsInEmptyLine(span: seq<string>) { |span| >= 2 && span[|span| - 1] == "" }

  /** The text of a span ends in a newline exactly when its last line is empty and not its only one. */
  lemma SpanText(span: seq<string>)
    requires |span| >= 1 && forall l :: l in span ==> '\n' !in l
    ensures EndsInEmptyLine(span) ==> Split(StripLast(Join(span, '\n'), '\n'), '\n') == span[..|span| - 1]
    ensures !EndsInEmptyLine(span) ==> Split(StripLast(Join(span, '\n'), '\n'), '\n') == span
  {
    var text := Join(span, '\n');
    hide Split, Join;
    var last := span[|span| - 1];
    assert last in span;
    if |span| == 1 {
      JoinOne(span[0]);
      assert span == [span[0]];
      SplitOfJoin(span, '\n');
      assert |text| > 0 ==> text[|text| - 1] in span[0];
    } else {
      var front := span[..|span| - 1];
      assert span == front + [last];
      JoinOfConcat(front, [last], '\n');
      JoinOne(last);
      if last == "" {
        assert text == Join(front, '\n') + "\n";
        assert StripLast(text, '\n') == Join(front, '\n');
        SplitOfJoin(front, '\n');
      } else {
        assert text[|text| - 1] == last[|last| - 1];
        assert last[|last| - 1] in last;
        SplitOfJoin(span, '\n');
      }
    }
  }

  lemma JoinOne(part: string)
    ensures Join([part], '\n') == part
  {
  }

  /** A splice gives the file back exactly when the new lines are the old ones. */
  lemma SpliceKeepsFileIff(src: string, start: int, end: int, update: string)
    requires Splice(src, start, end, update).Ok?
    ensures Splice(src, start, end, update) == Ok(src) <==> NewLines(update, HasCrlf(src)) == Lines(src)[start - 1..end]
  {
    hide Join, HasCrlf, NewLines, Split;
    var lines, newLines := Lines(src), NewLines(update, HasCrlf(src));
    LinesOfSplice(src, start, end, update);
    JoinOfSplit(src, '\n');
    assert lines == lines[..start - 1] + lines[start - 1..end] + lines[end..];
    SameMiddle(lines[..start - 1], newLines, lines[start - 1..end], lines[end..]);
  }

  lemma NewLinesOfSpanIff(span: seq<string>, crlf: bool)
    requires |span| >= 1 && forall l :: l in span ==> '\n' !in l
    ensures NewLines(Join(span, '\n'), crlf) == span
       <==> !EndsInEmptyLine(span) && forall i :: 0 <= i < |span| ==> EndsInCr(span[i]) == crlf
  {
    SpanText(span);
    hide Join, Split, Adapt, EndsInCr, StripLast;
    if !EndsInEmptyLine(span) {
      AdaptAllKeepsIff(span, crlf);
    }
  }

  /**
   * Splicing an extracted span back is the identity exactly when the span does not end
   * in an empty line after another line, and every line of it has the file's line
   * ending: a carriage return at its end if and only if the file has CRLF somewhere.
   */
  lemma SpliceOfExtractIff(src: string, start: int, end: int)
    requires Extract(src, start, end).Ok?
    ensures Splice(src, start, end, Extract(src, start, end).value) == Ok(src)
       <==> && !EndsInEmptyLine(Lines(src)[start - 1..end])
            && forall i :: start - 1 <= i < end ==> EndsInCr(Lines(src)[i]) == HasCrlf(src)
  {
    var lines := Lines(src);
    SpanIsWhole(src, start, end);
    SplitPiecesLackSeparator(src, '\n');
    hide Split, Join, HasCrlf, EndsInCr, NewLines, EndsInEmptyLine, Splice, Extract, Lines;
    SpliceKeepsFileIff(src, start, end, Extract(src, start, end).value);
    NewLinesOfSpanIff(lines[start - 1..end], HasCrlf(src));
    EndingsOfSlice(lines, start - 1, end, HasCrlf(src));
  }

  lemma SpanIsWhole(src: string, start: int, end: int)
    requires Extract(src, start, end).Ok?
    ensures 0 <= start - 1 < end <= |Lines(src)|
    ensures Extract(src, start, end) == Ok(Join(Lines(src)[start - 1..end], '\n'))
    ensures forall update :: Splice(src, start, end, update).Ok?
  {
  }

  lemma EndingsOfSlice(lines: seq<string>, s: nat, e: nat, crlf: bool)
    requires s <= e <= |lines|
    ensures (forall i :: s <= i < e ==> EndsInCr(lines[i]) == crlf) <==>
            (forall i :: 0 <= i < e - s ==> EndsInCr(lines[s..e][i]) == crlf)
  {
    hide EndsInCr;
    if forall i :: 0 <= i < e - s ==> EndsInCr(lines[s..e][i]) == crlf {
      forall i | s <= i < e ensures EndsInCr(lines[i]) == crlf {
        assert lines[s..e][i - s] == lines[i];
      }
    }
  }

  lemma SameMiddle(a: seq<string>, b: seq<string>, b': seq<string>, c: seq<string>)
    ensures a + b + c == a + b' + c <==> b == b'
  {
    if a + b + c == a + b' + c {
      assert |b| == |b'|;
      assert b == (a + b + c)[|a|..|a| + |b|];
      assert b' == (a + b' + c)[|a|..|a| + |b'|];
    }
  }

  // ----- two splices -----

  predicate EndsInTwoCr(line: string) { |line| > 1 && line[|line| - 1] == '\r' && line[|line| - 2] == '\r' }

  /**
   * Does a splice leave the file's kind as it is? A CRLF file keeps CRLF if the update has a line that is not the
   * last, or a line follows the span, or a line before it ends in a carriage return. An LF file stays LF unless a
   * line of the update that is not the file's last ends in two of them.
   */
  predicate KeepsEnding(src: string, start: int, end: int, update: string)
    requires 1 <= start <= end <= |Lines(src)|
  {
    var lines, newLines := Lines(src), UpdateLines(update);
    if HasCrlf(src) then |newLines| >= 2 || end < |lines| || exists i :: 0 <= i < start - 1 && EndsInCr(lines[i])
    else forall i :: 0 <= i < |newLines| && (i < |newLines| - 1 || end < |lines|) ==> !EndsInTwoCr(newLines[i])
  }

  /** CRLF is a line that ends in a carriage return and is not the last. */
  ghost predicate SomeCrBeforeLast(lines: seq<string>) { exists i :: 0 <= i < |lines| - 1 && EndsInCr(lines[i]) }

  lemma CrlfOfTwo(line: string, rest: string)
    requires '\n' !in line
    ensures HasCrlf(line + "\n" + rest) <==> EndsInCr(line) || HasCrlf(rest)
  {
    var text, k := line + "\n" + rest, |line|;
    forall i ensures CrlfAt(text, i) <==> (i == k - 1 && EndsInCr(line)) || CrlfAt(rest, i - k - 1) {
      CrlfAtOfTwo(line, rest, i);
    }
    if EndsInCr(line) {
      assert CrlfAt(text, k - 1);
    }
    if HasCrlf(rest) {
      var i :| 0 <= i < |rest| && CrlfAt(rest, i);
      assert CrlfAt(rest, i + k + 1 - k - 1);
      assert CrlfAt(text, i + k + 1);
    }
  }

  lemma CrlfAtOfTwo(line: string, rest: string, i: int)
    requires '\n' !in line
    ensures CrlfAt(line + "\n" + rest, i) <==> (i == |line| - 1 && EndsInCr(line)) || CrlfAt(rest, i - |line| - 1)
  {
    if 0 <= i < |line| {
      assert line[i] in line;
      assert i + 1 < |line| ==> line[i + 1] in line;
    }
  }

  lemma {:induction false} CrlfOfJoin(lines: seq<string>)
    requires |lines| >= 1 && forall l :: l in lines ==> '\n' !in l
    ensures HasCrlf(Join(lines, '\n')) <==> SomeCrBeforeLast(lines)
  {
    hide HasCrlf, EndsInCr;
    if |lines| == 1 {
      OneLineHasNoCrlf(lines[0]);
      JoinOne(lines[0]);
      assert lines == [lines[0]];
    } else {
      var rest := lines[1..];
      CrlfOfJoin(rest);
      CrlfOfTwo(lines[0], Join(rest, '\n'));
      JoinCons(lines[0], rest);
      assert lines == [lines[0]] + rest;
      if SomeCrBeforeLast(rest) {
        var i :| 0 <= i < |rest| - 1 && EndsInCr(rest[i]);
        assert EndsInCr(lines[i + 1]);
      }
      if SomeCrBeforeLast(lines) && !EndsInCr(lines[0]) {
        var i :| 0 <= i < |lines| - 1 && EndsInCr(lines[i]);
        assert EndsInCr(rest[i - 1]);
      }
    }
  }

  lemma OneLineHasNoCrlf(line: string)
    requires '\n' !in line
    ensures !HasCrlf(line)
  {
  }

  lemma CrlfOfLines(text: string)
    ensures HasCrlf(text) <==> SomeCrBeforeLast(Lines(text))
  {
    hide Split, Join, HasCrlf, SomeCrBeforeLast;
    SplitPiecesLackSeparator(text, '\n');
    JoinOfSplit(text, '\n');
    CrlfOfJoin(Lines(text));
  }

  lemma AdaptedEnding(line: string, crlf: bool)
    ensures EndsInCr(Adapt(line, crlf)) <==> crlf || EndsInTwoCr(line)
  {
  }

  /** A splice keeps the file's kind exactly when its inputs say so. */
  lemma KeepsEndingIff(src: string, start: int, end: int, update: string)
    requires Splice(src, start, end, update).Ok?
    ensures 1 <= start <= end <= |Lines(src)|
    ensures HasCrlf(Splice(src, start, end, update).value) == HasCrlf(src) <==> KeepsEnding(src, start, end, update)
  {
    hide Lines, HasCrlf, Join, Splice, UpdateLines, EndsInCr, EndsInTwoCr, Adapt;
    SpliceOkIff(src, start, end, update);
    LinesOfSplice(src, start, end, update);
    CrlfOfLines(src);
    CrlfOfLines(Splice(src, start, end, update).value);
    NewLinesAre(update, HasCrlf(src));
    hide NewLines;
    EndingAfter(Lines(src), start - 1, end, NewLines(update, HasCrlf(src)), UpdateLines(update), HasCrlf(src));
  }

  lemma NewLinesAre(update: string, crlf: bool)
    ensures |NewLines(update, crlf)| == |UpdateLines(update)|
    ensures forall i :: 0 <= i < |UpdateLines(update)| ==>
              (EndsInCr(NewLines(update, crlf)[i]) <==> crlf || EndsInTwoCr(UpdateLines(update)[i]))
  {
    hide Split, Adapt, EndsInCr, EndsInTwoCr;
    forall i | 0 <= i < |UpdateLines(update)|
      ensures EndsInCr(NewLines(update, crlf)[i]) <==> crlf || EndsInTwoCr(UpdateLines(update)[i])
    {
      AdaptedEnding(UpdateLines(update)[i], crlf);
    }
  }

  lemma EndingAfter(lines: seq<string>, s: nat, e: nat, newLines: seq<string>, raw: seq<string>, crlf: bool)
    requires s < e <= |lines| && |newLines| == |raw| >= 1 && (crlf <==> SomeCrBeforeLast(lines))
    requires forall i :: 0 <= i < |raw| ==> (EndsInCr(newLines[i]) <==> crlf || EndsInTwoCr(raw[i]))
    ensures SomeCrBeforeLast(lines[..s] + newLines + lines[e..]) <==>
            if crlf then |raw| >= 2 || e < |lines| || exists i :: 0 <= i < s && EndsInCr(lines[i])
            else exists i :: 0 <= i < |raw| && (i < |raw| - 1 || e < |lines|) && EndsInTwoCr(raw[i])
  {
    hide EndsInCr, EndsInTwoCr;
    var out, n := lines[..s] + newLines + lines[e..], |newLines|;
    assert forall i :: 0 <= i < s ==> out[i] == lines[i];
    assert forall i :: 0 <= i < n ==> out[s + i] == newLines[i];
    assert forall i :: e <= i < |lines| ==> out[s + n + i - e] == lines[i];
    if SomeCrBeforeLast(out) {
      var i :| 0 <= i < |out| - 1 && EndsInCr(out[i]);
      if i < s {
        assert EndsInCr(lines[i]);
      } else if i < s + n {
        assert out[i] == newLines[i - s];
      } else {
        assert out[i] == lines[i - s - n + e];
      }
    }
    if crlf && (|raw| >= 2 || e < |lines|) {
      assert EndsInCr(out[s + 0]);
    }
    if crlf && exists i :: 0 <= i < s && EndsInCr(lines[i]) {
      var i :| 0 <= i < s && EndsInCr(lines[i]);
      assert EndsInCr(out[i]);
    }
    if i :| 0 <= i < |raw| && (i < |raw| - 1 || e < |lines|) && EndsInTwoCr(raw[i]) {
      assert EndsInCr(out[s + i]);
    }
  }

  /** The line count of an update does not depend on the line ending, but its lines do. */
  lemma NewLinesTellEnding(update: string, a: bool, b: bool)
    ensures |NewLines(update, a)| == |NewLines(update, b)|
    ensures NewLines(update, a) == NewLines(update, b) <==> a == b
  {
    var lines := UpdateLines(update);
    hide Split, StripLast;
    assert NewLines(update, a)[0] == Adapt(lines[0], a) && NewLines(update, b)[0] == Adapt(lines[0], b);
    assert |Adapt(lines[0], true)| == |Adapt(lines[0], false)| + 1;
  }

  /** Two orders of two splices agree exactly when neither splice made first changes whether the file has CRLF. */
  lemma OrdersAgreeIff(src: string, start1: int, end1: int, update1: string, start2: int, end2: int, update2: string)
    requires Splice(src, start1, end1, update1).Ok? && Splice(src, start2, end2, update2).Ok? && end1 < start2
    ensures var after1, after2 := Splice(src, start1, end1, update1).value, Splice(src, start2, end2, update2).value;
            var shift := |NewLines(update1, HasCrlf(src))| - (end1 - start1 + 1);
            && Splice(after1, start2 + shift, end2 + shift, update2).Ok? && Splice(after2, start1, end1, update1).Ok?
            && (Splice(after1, start2 + shift, end2 + shift, update2) == Splice(after2, start1, end1, update1)
                <==> HasCrlf(after1) == HasCrlf(src) && HasCrlf(after2) == HasCrlf(src))
  {
    hide Lines, NewLines, HasCrlf, Join, Splice, UpdateLines, Split, Adapt, StripLast;
    var c := HasCrlf(src);
    SpliceOkIff(src, start1, end1, update1);
    SpliceOkIff(src, start2, end2, update2);
    var n1, n2 := NewLines(update1, c), NewLines(update2, c);
    var after1, after2 := Splice(src, start1, end1, update1).value, Splice(src, start2, end2, update2).value;
    var m1, m2 := NewLines(update1, HasCrlf(after2)), NewLines(update2, HasCrlf(after1));
    LinesOfSplice(src, start1, end1, update1);
    LinesOfSplice(src, start2, end2, update2);
    NewLinesTellEnding(update1, c, HasCrlf(after2));
    NewLinesTellEnding(update2, c, HasCrlf(after1));
    CommutedIff(Lines(src), Lines(after1), Lines(after2), start1 - 1, end1, start2 - 1, end2, n1, n2, m1, m2);
    var shift := |n1| - (end1 - start1 + 1);
    SpliceOkIff(after1, start2 + shift, end2 + shift, update2);
    SpliceOkIff(after2, start1, end1, update1);
    LinesOfSplice(after1, start2 + shift, end2 + shift, update2);
    LinesOfSplice(after2, start1, end1, update1);
    assert start2 - 1 + shift == start2 + shift - 1;
    SameLinesSameText(Splice(after1, start2 + shift, end2 + shift, update2).value,
        Splice(after2, start1, end1, update1).value);
  }

  lemma SpliceOkIff(src: string, start: int, end: int, update: string)
    ensures Splice(src, start, end, update).Ok? <==> 1 <= start <= end <= |Lines(src)|
  {
  }

  lemma SameLinesSameText(a: string, b: string)
    ensures a == b <==> Lines(a) == Lines(b)
  {
    hide Split, Join;
    JoinOfSplit(a, '\n');
    JoinOfSplit(b, '\n');
  }

  lemma CommutedIff(lines: seq<string>, first: seq<string>, second: seq<string>, s1: nat, e1: nat, s2: nat, e2: nat,
                    n1: seq<string>, n2: seq<string>, m1: seq<string>, m2: seq<string>)
    requires s1 < e1 <= s2 < e2 <= |lines| && |n1| >= 1 && |m1| == |n1| && |m2| == |n2|
    requires first == lines[..s1] + n1 + lines[e1..]
    requires second == lines[..s2] + n2 + lines[e2..]
    ensures var shift := |n1| - (e1 - s1);
            && 0 <= s2 + shift < e2 + shift <= |first| && e1 <= |second|
            && (first[..s2 + shift] + m2 + first[e2 + shift..] == second[..s1] + m1 + second[e1..] <==>
                    n1 == m1 && n2 == m2)
  {
    var shift := |n1| - (e1 - s1);
    var head, between, tail := lines[..s1], lines[e1..s2], lines[e2..];
    assert lines[e1..] == between + lines[s2..];
    assert first[..s2 + shift] == head + n1 + between;
    assert first[e2 + shift..] == tail;
    assert second[..s1] == head;
    assert second[e1..] == between + n2 + tail;
    FiveParts(head, n1, m1, between, m2, n2, tail);
    assert head + m1 + (between + n2 + tail) == head + m1 + between + n2 + tail;
  }

  lemma FiveParts(a: seq<string>, b: seq<string>, b': seq<string>, c: seq<string>, d: seq<string>, d': seq<string>,
      e: seq<string>)
    requires |b| == |b'| && |d| == |d'|
    ensures a + b + c + d + e == a + b' + c + d' + e <==> b == b' && d == d'
  {
    var x, y := a + b + c + d + e, a + b' + c + d' + e;
    var i, j := |a|, |a| + |b| + |c|;
    assert x[i..i + |b|] == b && y[i..i + |b|] == b';
    assert x[j..j + |d|] == d && y[j..j + |d|] == d';
  }

  /**
   * Splices of disjoint spans, the later one shifted by the change in line count, commute exactly when each of them,
   * made first, leaves the file's kind as it is, which its range, its update and the file decide.
   */
  lemma SplicesCommuteIff(src: string, start1: int, end1: int, update1: string, start2: int, end2: int, update2: string)
    requires Splice(src, start1, end1, update1).Ok? && Splice(src, start2, end2, update2).Ok? && end1 < start2
    ensures 1 <= start1 <= end1 < start2 <= end2 <= |Lines(src)|
    ensures var after1, after2 := Splice(src, start1, end1, update1).value, Splice(src, start2, end2, update2).value;
            var shift := |UpdateLines(update1)| - (end1 - start1 + 1);
            && Splice(after1, start2 + shift, end2 + shift, update2).Ok? && Splice(after2, start1, end1, update1).Ok?
            && (Splice(after1, start2 + shift, end2 + shift, update2) == Splice(after2, start1, end1, update1)
                <==> KeepsEnding(src, start1, end1, update1) && KeepsEnding(src, start2, end2, update2))
  {
    hide Lines, NewLines, UpdateLines, HasCrlf, Splice, KeepsEnding;
    OrdersAgreeIff(src, start1, end1, update1, start2, end2, update2);
    KeepsEndingIff(src, start1, end1, update1);
    KeepsEndingIff(src, start2, end2, update2);
    NewLinesAre(update1, HasCrlf(src));
  }

  /** In files and updates without carriage returns, splices of disjoint spans commute. */
  lemma LfSplicesCommute(src: string, start1: int, end1: int, update1: string, start2: int, end2: int, update2: string)
    requires Splice(src, start1, end1, update1).Ok? && Splice(src, start2, end2, update2).Ok? && end1 < start2
    requires '\r' !in src && '\r' !in update1 && '\r' !in update2
    ensures var after1, after2 := Splice(src, start1, end1, update1).value, Splice(src, start2, end2, update2).value;
            var shift := |UpdateLines(update1)| - (end1 - start1 + 1);
            Splice(after1, start2 + shift, end2 + shift, update2) == Splice(after2, start1, end1, update1)
  {
    hide Lines, NewLines, UpdateLines, HasCrlf, Splice, KeepsEnding;
    SplicesCommuteIff(src, start1, end1, update1, start2, end2, update2);
    CleanTextStaysClean(src, start1, end1, update1);
    CleanTextStaysClean(src, start2, end2, update2);
    KeepsEndingIff(src, start1, end1, update1);
    KeepsEndingIff(src, start2, end2, update2);
  }

  /** It does fail: taking the only CRLF away with the last lines changes what the first line is given. */
  lemma LastCrlfBreaksCommuting()
    ensures var src := "a\nb\r\nc";
            Splice(src, 1, 1, "y").Ok? && Splice(src, 2, 3, "x").Ok? &&
            Splice(Splice(src, 1, 1, "y").value, 2, 3, "x") != Splice(Splice(src, 2, 3, "x").value, 1, 1, "y")
  {
    hide Split, Join;
    var src, lines := "a\nb\r\nc", ["a", "b\r", "c"];
    JoinCons("a", ["b\r", "c"]);
    JoinCons("b\r", ["c"]);
    JoinOne("c");
    assert lines == ["a"] + ["b\r", "c"] && ["b\r", "c"] == ["b\r"] + ["c"];
    assert "a" + "\n" + ("b\r" + "\n" + "c") == src;
    SplitOfJoin(lines, '\n');
    assert Lines(src) == lines;
    assert CrlfAt(src, 3);
    SplitWithoutSeparator("x", '\n');
    SplitWithoutSeparator("y", '\n');
    assert UpdateLines("x") == ["x"] && UpdateLines("y") == ["y"];
    SpliceOkIff(src, 1, 1, "y");
    SpliceOkIff(src, 2, 3, "x");
    assert HasCrlf(src) && !KeepsEnding(src, 2, 3, "x");
    hide Lines, UpdateLines, Splice, HasCrlf, KeepsEnding;
    SplicesCommuteIff(src, 1, 1, "y", 2, 3, "x");
  }

  lemma JoinCons(line: string, rest: seq<string>)
    requires rest != []
    ensures Join([line] + rest, '\n') == line + "\n" + Join(rest, '\n')
  {
    assert ([line] + rest)[1..] == rest;
  }

  /** Without carriage returns anywhere the line-ending condition is met. */
  lemma CleanTextStaysClean(src: string, start: int, end: int, update: string)
    requires Splice(src, start, end, update).Ok? && '\r' !in src && '\r' !in update
    ensures !HasCrlf(src) && '\r' !in Splice(src, start, end, update).value
    ensures !HasCrlf(Splice(src, start, end, update).value)
  {
    OutsideIsUnchanged(src, start, end, update);
    var before, after := Before(Lines(src), start - 1), After(Lines(src), end);
    assert !HasCrlf(src);
    var text := StripLast(update, '\n');
    SplitPiecesKeep(text, '\n', c => c != '\r');
    var newLines := Split(text, '\n');
    forall i | 0 <= i < |newLines| ensures Adapt(newLines[i], false) == newLines[i] {
      assert newLines[i] in newLines;
      assert |newLines[i]| > 0 ==> newLines[i][|newLines[i]| - 1] in newLines[i];
    }
    assert NewLines(update, false) == newLines;
    JoinOfSplit(text, '\n');
  }
}
