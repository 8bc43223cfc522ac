/** `crabcc squeeze`: final frames of redrawn lines, run-length markers, and an error-keeping window. */
module Squeeze {
  import opened Results
  import opened Text
  import opened Decimal

  const SIGNAL: seq<string> := ["error", "warn", "fail", "panic", "fatal", "traceback", "exception", "assert"]

  predicate IsSignal(line: string) {
    exists k :: 0 <= k < |SIGNAL| && Contains(Lower(line), SIGNAL[k])
  }

  /** The letter itself or its capital. */
  predicate SameLetter(c: char, small: char) {
    c == small || ('a' <= small <= 'z' && c == small - 'a' + 'A')
  }

  /** Somewhere in the line, one of the eight words stands in small or capital letters. */
  lemma SignalIff(line: string)
    ensures IsSignal(line) <==>
            exists word: string, i: nat :: SpellsAt(line, i, word) && word in
              {"error", "warn", "fail", "panic", "fatal", "traceback", "exception", "assert"}
  {
    hide SpellsAt, Lower;
    var words := {"error", "warn", "fail", "panic", "fatal", "traceback", "exception", "assert"};
    assert forall word :: word in words <==> word in SIGNAL;
    assert forall k :: 0 <= k < |SIGNAL| ==> SIGNAL[k] in SIGNAL;
    forall word: string, i: nat | word in SIGNAL ensures SpellsAt(line, i, word) <==> Matches(Lower(line), i, word) {
      SmallWords(word);
      SpelledIff(line, i, word);
    }
    if word: string, i: nat :| SpellsAt(line, i, word) && word in words {
      var k :| 0 <= k < |SIGNAL| && SIGNAL[k] == word;
      assert Contains(Lower(line), SIGNAL[k]) by {
        assert Matches(Lower(line), i, word);
      }
    }
    if IsSignal(line) {
      var k :| 0 <= k < |SIGNAL| && Contains(Lower(line), SIGNAL[k]);
      var i: nat :| i <= |Lower(line)| && Matches(Lower(line), i, SIGNAL[k]);
      assert SpellsAt(line, i, SIGNAL[k]);
    }
  }

  predicate SpellsAt(line: string, i: nat, word: string) {
    i + |word| <= |line| && forall j :: 0 <= j < |word| ==> SameLetter(line[i + j], word[j])
  }

  predicate IsSmall(word: string) { forall j :: 0 <= j < |word| ==> 'a' <= word[j] <= 'z' }

  lemma SmallWords(word: string)
    requires word in SIGNAL
    ensures IsSmall(word)
  {
  }

  lemma SpelledIff(line: string, i: nat, word: string)
    requires IsSmall(word)
    ensures SpellsAt(line, i, word) <==> Matches(Lower(line), i, word)
  {
    if i + |word| <= |line| {
      var part := Lower(line)[i..i + |word|];
      forall j | 0 <= j < |word| ensures part[j] == word[j] <==> SameLetter(line[i + j], word[j]) {
        assert part[j] == LowerChar(line[i + j]);
      }
    }
  }

  // ----- frames -----

  predicate EndsWithNewline(input: string) { |input| > 0 && input[|input| - 1] == '\n' }

  /** The physical lines; a trailing newline does not start another one. */
  function RawLines(input: string): seq<string> {
    var parts := Split(input, '\n');
    if EndsWithNewline(input) then parts[..|parts| - 1] else parts
  }

  /** What follows the last carriage return, or the whole line. */
  function CollapseCr(line: string): string {
    var parts := Split(line, '\r');
    parts[|parts| - 1]
  }

  /** A line without a carriage return is its own final frame; otherwise the frame is what follows the last one. */
  lemma FinalFrame(line: string)
    ensures '\r' !in CollapseCr(line)
    ensures CollapseCr(line) == line || EndsWith(line, "\r" + CollapseCr(line))
    ensures '\r' !in line ==> CollapseCr(line) == line
  {
    hide Split, Join;
    var parts := Split(line, '\r');
    SplitPiecesLackSeparator(line, '\r');
    JoinOfSplit(line, '\r');
    var front, last := parts[..|parts| - 1], parts[|parts| - 1];
    assert last in parts && parts == front + [last];
    JoinOfLast(last);
    if front != [] {
      JoinOfConcat(front, [last], '\r');
      assert line == Join(front, '\r') + ("\r" + last);
    } else {
      assert parts == [last];
    }
    if '\r' !in line {
      SplitWithoutSeparator(line, '\r');
    }
  }

  lemma JoinOfLast(last: string)
    ensures Join([last], '\r') == last
  {
  }

  /** The physical lines, each ended by a newline or the end of the text, spell the input. */
  lemma LinesSpellTheInput(input: string)
    ensures forall l :: l in RawLines(input) ==> '\n' !in l
    ensures input == Join(RawLines(input), '\n') + (if EndsWith(input, "\n") then "\n" else "")
  {
    hide Split, Join;
    SplitPiecesLackSeparator(input, '\n');
    JoinOfSplit(input, '\n');
    if EndsWithNewline(input) {
      var front := input[..|input| - 1];
      assert input == front + ['\n'] + "";
      SplitOfConcat(front, "", '\n');
      SplitWithoutSeparator("", '\n');
      assert Split(input, '\n')[..|Split(input, '\n')| - 1] == Split(front, '\n');
      JoinOfSplit(front, '\n');
    } else {
      assert input + "" == input;
    }
  }

  function Frames(raw: seq<string>): (frames: seq<string>)
    ensures |frames| == |raw|
    ensures forall i :: 0 <= i < |raw| ==> frames[i] == CollapseCr(raw[i])
  {
    seq(|raw|, i requires 0 <= i < |raw| => CollapseCr(raw[i]))
  }

  // ----- runs -----

  datatype Run = Run(line: string, count: nat)

  /** How many of the first frames are equal to the very first. */
  function LeadCount(frames: seq<string>): (k: nat)
    requires frames != []
    ensures 1 <= k <= |frames|
    ensures forall i :: 0 <= i < k ==> frames[i] == frames[0]
    ensures k < |frames| ==> frames[k] != frames[0]
  {
    if |frames| == 1 || frames[1] != frames[0] then 1
    else
      var k := LeadCount(frames[1..]);
      assert forall i :: 1 <= i < k + 1 ==> frames[i] == frames[1..][i - 1];
      k + 1
  }

  function RunsOf(frames: seq<string>): seq<Run>
    decreases |frames|
  {
    if frames == [] then []
    else [Run(frames[0], LeadCount(frames))] + RunsOf(frames[LeadCount(frames)..])
  }

  function Marker(count: nat): string { "[repeated " + Show(count) + "x]" }

  function EmitRun(run: Run): seq<string> {
    if run.count > 1 then [run.line, Marker(run.count)] else [run.line]
  }

  /** The lines that run-length dedupe prints. */
  function Emit(runs: seq<Run>): seq<string> {
    if runs == [] then [] else EmitRun(runs[0]) + Emit(runs[1..])
  }

  function Repeat(line: string, count: nat): (r: seq<string>)
    ensures |r| == count && forall i :: 0 <= i < count ==> r[i] == line
  {
    seq(count, _ => line)
  }

  function Expand(runs: seq<Run>): seq<string> {
    if runs == [] then [] else Repeat(runs[0].line, runs[0].count) + Expand(runs[1..])
  }

  function Removed(runs: seq<Run>): nat {
    if runs == [] then 0 else (if runs[0].count > 1 then runs[0].count - 1 else 0) + Removed(runs[1..])
  }

  function Groups(runs: seq<Run>): nat {
    if runs == [] then 0 else (if runs[0].count > 1 then 1 else 0) + Groups(runs[1..])
  }

  /** Each run is a maximal block. */
  predicate Maximal(runs: seq<Run>) {
    && (forall i :: 0 <= i < |runs| ==> runs[i].count >= 1)
    && (forall i :: 0 <= i < |runs| - 1 ==> runs[i].line != runs[i + 1].line)
  }

  lemma ConsMaximal(run: Run, rest: seq<Run>)
    requires Maximal(rest) && run.count >= 1 && (rest != [] ==> rest[0].line != run.line)
    ensures Maximal([run] + rest)
  {
    var runs := [run] + rest;
    assert forall i :: 0 < i < |runs| ==> runs[i] == rest[i - 1];
  }

  lemma ExpandCons(run: Run, rest: seq<Run>)
    ensures Expand([run] + rest) == Repeat(run.line, run.count) + Expand(rest)
    ensures run.count >= 1 ==> Removed([run] + rest) == run.count - 1 + Removed(rest)
    ensures Groups([run] + rest) == (if run.count > 1 then 1 else 0) + Groups(rest)
    ensures Emit([run] + rest) == EmitRun(run) + Emit(rest)
  {
    hide EmitRun;
    assert ([run] + rest)[1..] == rest;
  }

  lemma RunsStep(frames: seq<string>)
    requires frames != []
    ensures var k := LeadCount(frames);
            && RunsOf(frames) == [Run(frames[0], k)] + RunsOf(frames[k..])
            && frames == Repeat(frames[0], k) + frames[k..]
            && (k < |frames| ==> frames[k..][0] != frames[0])
  {
    RepeatPrefix(frames, LeadCount(frames));
    hide Repeat, LeadCount;
  }

  lemma RepeatPrefix(frames: seq<string>, k: nat)
    requires frames != [] && k <= |frames| && forall i :: 0 <= i < k ==> frames[i] == frames[0]
    ensures frames == Repeat(frames[0], k) + frames[k..]
  {
    assert frames[..k] == Repeat(frames[0], k);
  }

  /**
   * Expanding the runs gives back exactly the final frames, the runs are maximal, and
   * the input lines are the runs plus the removed repeats.
   */
  lemma {:induction false} RunsAreLossless(frames: seq<string>)
    ensures Expand(RunsOf(frames)) == frames
    ensures Maximal(RunsOf(frames))
    ensures |frames| == |RunsOf(frames)| + Removed(RunsOf(frames))
    ensures frames != [] ==> RunsOf(frames) != [] && RunsOf(frames)[0].line == frames[0]
    decreases |frames|
  {
    if frames != [] {
      RunsStep(frames);
      hide LeadCount, RunsOf, Expand, Removed, Maximal, Repeat;
      var k := LeadCount(frames);
      var rest := RunsOf(frames[k..]);
      RunsAreLossless(frames[k..]);
      ExpandCons(Run(frames[0], k), rest);
      ConsMaximal(Run(frames[0], k), rest);
    }
  }

  // ----- reading the markers back -----

  /** The count in a line of the marker's form. */
  function MarkerCount(line: string): Option<nat> {
    if |line| > 12 && line[..10] == "[repeated " && line[|line| - 2..] == "x]" && AllDigits(line[10..|line| - 2]) then
      Some(Value(line[10..|line| - 2]))
    else None
  }

  predicate LooksLikeMarker(line: string) { MarkerCount(line).Some? }

  lemma MarkerCountOfMarker(count: nat)
    ensures MarkerCount(Marker(count)) == Some(count)
  {
    var digits := Show(count);
    var line := Marker(count);
    ValueOfShow(count);
    hide Show, Value;
    assert line[..10] == "[repeated ";
    assert line[10..|line| - 2] == digits;
  }

  /** Undo run-length dedupe on the printed lines. */
  function Decode(lines: seq<string>): seq<string>
    decreases |lines|
  {
    if lines == [] then []
    else if |lines| >= 2 && LooksLikeMarker(lines[1]) then
      Repeat(lines[0], MarkerCount(lines[1]).value) + Decode(lines[2..])
    else [lines[0]] + Decode(lines[1..])
  }

  lemma {:induction false} DecodeOfEmit(runs: seq<Run>)
    requires Maximal(runs)
    requires forall i :: 0 <= i < |runs| ==> !LooksLikeMarker(runs[i].line)
    ensures Decode(Emit(runs)) == Expand(runs)
  {
    if runs != [] {
      hide LooksLikeMarker, Marker;
      var rest := runs[1..];
      assert Maximal(rest);
      DecodeOfEmit(rest);
      var lines := Emit(runs);
      if runs[0].count > 1 {
        MarkerCountOfMarker(runs[0].count);
        MarkerLooksLikeMarker(runs[0].count);
        assert lines[1] == Marker(runs[0].count) && lines[2..] == Emit(rest);
      } else {
        assert lines[1..] == Emit(rest);
        if rest != [] {
          assert lines[1] == rest[0].line;
        }
        assert Repeat(runs[0].line, 1) == [runs[0].line];
      }
    }
  }

  lemma MarkerLooksLikeMarker(count: nat)
    ensures LooksLikeMarker(Marker(count))
  {
    MarkerCountOfMarker(count);
  }

  function RunLines(runs: seq<Run>): (lines: seq<string>)
    ensures |lines| == |runs| && forall i :: 0 <= i < |runs| ==> lines[i] == runs[i].line
  {
    seq(|runs|, i requires 0 <= i < |runs| => runs[i].line)
  }

  lemma {:induction false} ExpandHasTheLines(runs: seq<Run>)
    requires forall i :: 0 <= i < |runs| ==> runs[i].count >= 1
    ensures forall f :: f in Expand(runs) <==> f in RunLines(runs)
  {
    if runs != [] {
      ExpandHasTheLines(runs[1..]);
      assert RunLines(runs) == [runs[0].line] + RunLines(runs[1..]);
      assert Repeat(runs[0].line, runs[0].count)[0] == runs[0].line;
    }
  }

  /** The lines of the runs are the frames, each block once. */
  lemma RunLinesAreFrames(frames: seq<string>)
    ensures forall f :: f in frames <==> f in RunLines(RunsOf(frames))
  {
    RunsAreLossless(frames);
    ExpandHasTheLines(RunsOf(frames));
  }

  /** When no frame looks like a repeat marker, the printed lines alone determine every final frame. */
  lemma DedupeIsDecodable(frames: seq<string>)
    requires forall f :: f in frames ==> !LooksLikeMarker(f)
    ensures Decode(Emit(RunsOf(frames))) == frames
  {
    hide LooksLikeMarker, RunsOf, Emit, Expand;
    RunsAreLossless(frames);
    RunLinesAreFrames(frames);
    assert forall i :: 0 <= i < |RunsOf(frames)| ==> RunLines(RunsOf(frames))[i] in RunLines(RunsOf(frames));
    DecodeOfEmit(RunsOf(frames));
  }

  // ----- a second pass -----

  /** A run that a second pass prints as it stands. */
  predicate Quiet(run: Run) { run.count == 1 || (run.count == 2 && run.line == Marker(2)) }

  lemma {:induction false} EmitIsShorter(runs: seq<Run>)
    requires forall i :: 0 <= i < |runs| ==> runs[i].count >= 1
    ensures |Emit(runs)| <= |Expand(runs)|
  {
    if runs != [] {
      EmitIsShorter(runs[1..]);
    }
  }

  lemma {:induction false} EmitIsExpandIff(runs: seq<Run>)
    requires forall i :: 0 <= i < |runs| ==> runs[i].count >= 1
    ensures Emit(runs) == Expand(runs) <==> forall i :: 0 <= i < |runs| ==> Quiet(runs[i])
  {
    if runs != [] {
      hide Marker;
      var r, rest := runs[0], runs[1..];
      EmitIsShorter(rest);
      EmitIsExpandIff(rest);
      assert (forall i :: 0 <= i < |runs| ==> Quiet(runs[i])) <==>
          Quiet(r) && forall i :: 0 <= i < |rest| ==> Quiet(rest[i]) by {
        assert forall i :: 0 < i < |runs| ==> runs[i] == rest[i - 1];
      }
      SamePrefix(EmitRun(r), Repeat(r.line, r.count), Emit(rest), Expand(rest));
      if r.count == 2 {
        assert Repeat(r.line, 2) == [r.line, r.line];
      } else if r.count == 1 {
        assert Repeat(r.line, 1) == [r.line];
      }
    }
  }

  lemma SamePrefix(a: seq<string>, b: seq<string>, c: seq<string>, d: seq<string>)
    ensures |a| == |b| ==> (a + c == b + d <==> a == b && c == d)
    ensures |a| < |b| && |c| <= |d| ==> a + c != b + d
  {
    if |a| == |b| && a + c == b + d {
      assert a == (a + c)[..|a|] && b == (b + d)[..|b|];
      assert c == (a + c)[|a|..] && d == (b + d)[|b|..];
    }
  }

  /** The exact condition: deduping lines again changes nothing if and only if every run among them is quiet. */
  lemma DedupeKeepsIff(lines: seq<string>)
    ensures Emit(RunsOf(lines)) == lines <==> forall i :: 0 <= i < |RunsOf(lines)| ==> Quiet(RunsOf(lines)[i])
  {
    hide RunsOf, Emit, Expand, Quiet;
    RunsAreLossless(lines);
    EmitIsExpandIff(RunsOf(lines));
  }

  /** A frame that imitates a marker can make the second pass differ: three equal lines before one. */
  lemma ImitatedMarkerBreaksIdempotence(line: string)
    requires line != Marker(3)
    ensures var frames := [line, line, line, Marker(3)];
            Emit(RunsOf(frames)) == [line, Marker(3), Marker(3)]
    ensures Emit(RunsOf([line, Marker(3), Marker(3)])) != [line, Marker(3), Marker(3)]
  {
    hide Marker;
    var m := Marker(3);
    var frames := [line, line, line, m];
    assert frames[1..] == [line, line, m] && [line, line, m][1..] == [line, m];
    assert LeadCount([line, m]) == 1 && LeadCount([line, line, m]) == 2;
    assert LeadCount(frames) == 3;
    assert frames[3..] == [m];
    assert LeadCount([m]) == 1 && [m][1..] == [];
    assert RunsOf([m]) == [Run(m, 1)];
    assert RunsOf(frames) == [Run(line, 3), Run(m, 1)];
    EmitTwo(Run(line, 3), Run(m, 1));
    var second := [line, m, m];
    assert LeadCount(second) == 1;
    assert second[1..] == [m, m] && [m, m][1..] == [m];
    assert LeadCount([m, m]) == 2;
    assert [m, m][2..] == [];
    assert RunsOf([m, m]) == [Run(m, 2)];
    assert RunsOf(second) == [Run(line, 1), Run(m, 2)];
    EmitTwo(Run(line, 1), Run(m, 2));
    MarkerCountOfMarker(2);
    MarkerCountOfMarker(3);
  }

  lemma EmitTwo(a: Run, b: Run)
    ensures Emit([a, b]) == EmitRun(a) + EmitRun(b)
  {
    assert [a, b][1..] == [b] && [b][1..] == [];
    assert Emit([b]) == EmitRun(b) + Emit([]);
    assert EmitRun(b) + [] == EmitRun(b);
  }

  // ----- the window -----

  function Signals(lines: seq<string>): seq<string> {
    if lines == [] then [] else (if IsSignal(lines[0]) then [lines[0]] else []) + Signals(lines[1..])
  }

  /** How many lines are kept at either end. */
  function Half(maxLines: nat): nat { if maxLines / 2 >= 1 then maxLines / 2 else 1 }

  predicate Fires(lines: seq<string>, maxLines: nat) { maxLines != 0 && |lines| > maxLines }

  function Middle(lines: seq<string>, maxLines: nat): seq<string>
    requires Fires(lines, maxLines)
  {
    lines[Half(maxLines)..|lines| - Half(maxLines)]
  }

  function Elision(elided: nat, surfaced: nat): string {
    "[... " + Show(elided) + " lines elided; " + Show(surfaced) + " error/warning" + " line(s) surfaced ...]"
  }

  function Windowed(lines: seq<string>, maxLines: nat): seq<string> {
    if !Fires(lines, maxLines) then lines
    else
      var half, middle := Half(maxLines), Middle(lines, maxLines);
      lines[..half] + [Elision(|middle|, |Signals(middle)|)] + Signals(middle) + lines[|lines| - half..]
  }

  lemma {:induction false} SignalsConcat(a: seq<string>, b: seq<string>)
    ensures Signals(a + b) == Signals(a) + Signals(b)
  {
    hide IsSignal;
    if a == [] {
      assert a + b == b;
    } else {
      assert (a + b)[1..] == a[1..] + b;
      SignalsConcat(a[1..], b);
      var first := if IsSignal(a[0]) then [a[0]] else [];
      assert Signals(a + b) == first + Signals(a[1..] + b) && Signals(a) == first + Signals(a[1..]);
      hide Signals;
      assert first + (Signals(a[1..]) + Signals(b)) == (first + Signals(a[1..])) + Signals(b);
    }
  }

  lemma {:induction false} SignalsOfSignals(lines: seq<string>)
    ensures Signals(Signals(lines)) == Signals(lines)
  {
    hide IsSignal;
    if lines != [] {
      SignalsOfSignals(lines[1..]);
      assert Signals([lines[0]] + lines[1..]) == (if IsSignal(lines[0]) then [lines[0]] else []) + Signals(lines[1..]);
      SignalsConcat(if IsSignal(lines[0]) then [lines[0]] else [], Signals(lines[1..]));
      assert [lines[0]][1..] == [];
    }
  }

  lemma WindowLayout(lines: seq<string>, maxLines: nat)
    requires Fires(lines, maxLines)
    ensures var half, middle, out := Half(maxLines), Middle(lines, maxLines), Windowed(lines, maxLines);
            && 2 * half <= |lines|
            && |out| == 2 * half + 1 + |Signals(middle)|
            && out[..half] == lines[..half]
            && out[half + 1..] == Signals(middle) + lines[|lines| - half..]
            && lines == lines[..half] + (middle + lines[|lines| - half..])
  {
    hide Signals, Elision;
    var half, middle := Half(maxLines), Middle(lines, maxLines);
    FourPieces(lines[..half], [Elision(|middle|, |Signals(middle)|)], Signals(middle), lines[|lines| - half..]);
  }

  /**
   * Half the limit of lines at either end, but at least one, around an elision line and the errors and warnings of
   * the rest; without a limit, or within it, every line.
   */
  ghost predicate IsWindow(out: seq<string>, lines: seq<string>, maxLines: nat) {
    if maxLines == 0 || |lines| <= maxLines then out == lines
    else
      var n := if maxLines == 1 then 1 else maxLines / 2;
      var rest := lines[n..|lines| - n];
      && |out| >= 2 * n + 1 && out[..n] == lines[..n] && out[|out| - n..] == lines[|lines| - n..]
      && IsElision(out[n], |rest|, |out| - 2 * n - 1) && AreSignalsOf(out[n + 1..|out| - n], rest)
  }

  predicate IsElision(line: string, elided: nat, surfaced: nat) {
    line == "[... " + Show(elided) + " lines elided; " + Show(surfaced) + " error/warning line(s) surfaced ...]"
  }

  lemma ElisionIs(elided: nat, surfaced: nat)
    ensures IsElision(Elision(elided, surfaced), elided, surfaced)
  {
    hide Show;
    assert " error/warning" + " line(s) surfaced ...]" == " error/warning line(s) surfaced ...]";
  }

  /** In order, and each as often. */
  ghost predicate AreSignalsOf(signals: seq<string>, lines: seq<string>) {
    exists at: seq<nat> ::
      && |at| == |signals| && (forall i :: 0 <= i < |at| ==> at[i] < |lines| && signals[i] == lines[at[i]])
      && (forall i, j :: 0 <= i < j < |at| ==> at[i] < at[j])
      && (forall k: nat :: k < |lines| ==> (k in at <==> IsSignal(lines[k])))
  }

  lemma {:induction false} SignalsAreSignals(lines: seq<string>) returns (at: seq<nat>)
    ensures |at| == |Signals(lines)|
    ensures forall i :: 0 <= i < |at| ==> at[i] < |lines| && Signals(lines)[i] == lines[at[i]]
    ensures forall i, j :: 0 <= i < j < |at| ==> at[i] < at[j]
    ensures forall k: nat :: k < |lines| ==> (k in at <==> IsSignal(lines[k]))
  {
    hide IsSignal;
    at := [];
    if lines != [] {
      var n := |lines| - 1;
      at := SignalsAreSignals(lines[..n]);
      SignalsSnoc(lines, n);
      assert lines[..n + 1] == lines;
      assert forall i :: 0 <= i < n ==> lines[..n][i] == lines[i];
      if IsSignal(lines[n]) {
        at := at + [n];
      }
    }
  }

  lemma WindowIs(lines: seq<string>, maxLines: nat)
    ensures IsWindow(Windowed(lines, maxLines), lines, maxLines)
  {
    hide Signals, AreSignalsOf, Elision, IsElision;
    if Fires(lines, maxLines) {
      hide IsWindow;
      var middle := Middle(lines, maxLines);
      SignalsInOrder(middle);
      ElisionIs(|middle|, |Signals(middle)|);
      PiecesAreTheWindow(lines, maxLines, Half(maxLines), Elision(|middle|, |Signals(middle)|), Signals(middle));
    }
  }

  lemma PiecesAreTheWindow(lines: seq<string>, maxLines: nat, n: nat, elision: string, signals: seq<string>)
    requires |lines| > maxLines > 0 && n == if maxLines == 1 then 1 else maxLines / 2
    requires IsElision(elision, |lines| - 2 * n, |signals|) && AreSignalsOf(signals, lines[n..|lines| - n])
    ensures IsWindow(lines[..n] + [elision] + signals + lines[|lines| - n..], lines, maxLines)
  {
    hide AreSignalsOf, IsElision;
    TheWindow(lines[..n], elision, signals, lines[|lines| - n..]);
  }

  lemma SignalsInOrder(lines: seq<string>)
    ensures AreSignalsOf(Signals(lines), lines)
  {
    var at := SignalsAreSignals(lines);
    hide Signals, IsSignal;
  }

  lemma TheWindow(head: seq<string>, elision: string, signals: seq<string>, tail: seq<string>)
    ensures var n, out := |head|, head + [elision] + signals + tail;
            && |out| == n + 1 + |signals| + |tail|
            && out[..n] == head && out[n] == elision && out[n + 1..|out| - |tail|] == signals
            && out[|out| - |tail|..] == tail
  {
  }

  lemma FourPieces(a: seq<string>, b: seq<string>, c: seq<string>, d: seq<string>)
    ensures (a + b + c + d)[..|a|] == a && (a + b + c + d)[|a| + |b|..] == c + d
  {
  }

  /**
   * For every limit: a fired window prints two halves, one elision line and the
   * surfaced signals, and apart from the elision line the output has exactly the error
   * and warning lines of its input, each as often and in the same order.
   */
  lemma WindowKeepsSignals(lines: seq<string>, maxLines: nat)
    requires |lines| > maxLines > 0
    ensures var n, out := if maxLines == 1 then 1 else maxLines / 2, Windowed(lines, maxLines);
            && 2 * n <= |lines| && |out| == 2 * n + 1 + |Signals(lines[n..|lines| - n])|
            && out[..n] == lines[..n]
            && Signals(out[..n] + out[n + 1..]) == Signals(lines)
  {
    HalvesKeepSignals(lines, maxLines);
  }

  lemma HalvesKeepSignals(lines: seq<string>, maxLines: nat)
    requires Fires(lines, maxLines)
    ensures var half, out := Half(maxLines), Windowed(lines, maxLines);
            && 2 * half <= |lines|
            && |out| == 2 * half + 1 + |Signals(Middle(lines, maxLines))|
            && out[..half] == lines[..half]
            && Signals(out[..half] + out[half + 1..]) == Signals(lines)
  {
    WindowLayout(lines, maxLines);
    hide Signals, Windowed, Half, Middle;
    var half := Half(maxLines);
    var head, middle, tail := lines[..half], Middle(lines, maxLines), lines[|lines| - half..];
    SignalsConcat(head, Signals(middle) + tail);
    SignalsConcat(Signals(middle), tail);
    SignalsOfSignals(middle);
    SignalsConcat(head, middle + tail);
    SignalsConcat(middle, tail);
  }

  /** A fired window can print more lines than it was given: exactly when all it elides are signals. */
  lemma WindowGrowsIff(lines: seq<string>, maxLines: nat)
    requires |lines| > maxLines > 0
    ensures var n := if maxLines == 1 then 1 else maxLines / 2;
            |Windowed(lines, maxLines)| > |lines| <==> forall i :: n <= i < |lines| - n ==> IsSignal(lines[i])
  {
    hide IsSignal, Elision, Windowed, Signals;
    var middle := Middle(lines, maxLines);
    CountSignals(middle);
    HalvesKeepSignals(lines, maxLines);
    var n := if maxLines == 1 then 1 else maxLines / 2;
    if forall i :: 0 <= i < |middle| ==> IsSignal(middle[i]) {
      assert forall i :: n <= i < |lines| - n ==> lines[i] == middle[i - n];
    }
    if forall i :: n <= i < |lines| - n ==> IsSignal(lines[i]) {
      assert forall i :: 0 <= i < |middle| ==> middle[i] == lines[i + n];
    }
  }

  lemma {:induction false} CountSignals(lines: seq<string>)
    ensures |Signals(lines)| <= |lines|
    ensures |Signals(lines)| == |lines| <==> forall i :: 0 <= i < |lines| ==> IsSignal(lines[i])
  {
    hide IsSignal;
    if lines != [] {
      CountSignals(lines[1..]);
      assert forall i :: 0 < i < |lines| ==> lines[i] == lines[1..][i - 1];
    }
  }

  lemma {:induction false} SignalsAreMembers(lines: seq<string>)
    ensures forall l :: l in Signals(lines) <==> l in lines && IsSignal(l)
  {
    hide IsSignal;
    if lines != [] {
      SignalsAreMembers(lines[1..]);
      assert forall l :: l in lines <==> l == lines[0] || l in lines[1..];
    }
  }

  lemma WindowKeepsSignalLines(lines: seq<string>, maxLines: nat)
    ensures forall l :: l in lines && IsSignal(l) ==> l in Windowed(lines, maxLines)
  {
    hide IsSignal;
    if Fires(lines, maxLines) {
      var half, out := Half(maxLines), Windowed(lines, maxLines);
      HalvesKeepSignals(lines, maxLines);
      hide Windowed, Middle, Half;
      SignalsAreMembers(lines);
      SignalsAreMembers(out[..half] + out[half + 1..]);
    }
  }

  // ----- squeeze -----

  function Deduped(input: string): seq<string> { Emit(RunsOf(Frames(RawLines(input)))) }

  function Squeezed(input: string, maxLines: nat): string {
    Join(Windowed(Deduped(input), maxLines), '\n') + (if EndsWithNewline(input) then "\n" else "")
  }

  lemma {:induction false} EmitHasTheLines(runs: seq<Run>)
    ensures forall i :: 0 <= i < |runs| ==> runs[i].line in Emit(runs)
    ensures forall l :: l in Emit(runs) ==> l in RunLines(runs) || exists n :: l == Marker(n)
  {
    hide Marker;
    if runs != [] {
      EmitHasTheLines(runs[1..]);
      assert RunLines(runs) == [runs[0].line] + RunLines(runs[1..]);
      assert EmitRun(runs[0])[0] == runs[0].line;
      assert forall i :: 0 < i < |runs| ==> runs[i] == runs[1..][i - 1];
    }
  }

  // ----- idempotence of the whole filter -----

  /** A printed line holds neither a newline nor a carriage return. */
  predicate IsFrameText(line: string) { '\n' !in line && '\r' !in line }

  lemma FramesAreFrameText(input: string)
    ensures forall f :: f in Frames(RawLines(input)) ==> IsFrameText(f)
  {
    var raw := RawLines(input);
    SplitPiecesLackSeparator(input, '\n');
    forall i | 0 <= i < |raw| ensures IsFrameText(CollapseCr(raw[i])) {
      assert raw[i] in Split(input, '\n');
      SplitPiecesLackSeparator(raw[i], '\r');
      SplitPiecesKeep(raw[i], '\r', c => c != '\n');
      assert CollapseCr(raw[i]) in Split(raw[i], '\r');
    }
  }

  lemma MarkerIsFrameText(count: nat)
    ensures IsFrameText(Marker(count)) && Marker(count) != ""
  {
    assert AllDigits(Show(count));
  }

  lemma DedupedIsFrameText(input: string)
    ensures forall l :: l in Deduped(input) ==> IsFrameText(l)
  {
    hide IsFrameText, Marker, RunsOf, Emit;
    var frames := Frames(RawLines(input));
    FramesAreFrameText(input);
    RunLinesAreFrames(frames);
    EmitHasTheLines(RunsOf(frames));
    forall n ensures IsFrameText(Marker(n)) {
      MarkerIsFrameText(n);
    }
  }

  lemma FramesOfFrameText(lines: seq<string>)
    requires forall l :: l in lines ==> IsFrameText(l)
    ensures Frames(lines) == lines
  {
    forall i | 0 <= i < |lines| ensures CollapseCr(lines[i]) == lines[i] {
      assert lines[i] in lines;
      SplitWithoutSeparator(lines[i], '\r');
    }
  }

  lemma JoinOfOne(line: string)
    ensures Join([line], '\n') == line
  {
  }

  /** Printed text with its newline splits into the printed lines again. */
  lemma RawLinesWithNewline(lines: seq<string>)
    requires |lines| >= 1 && forall l :: l in lines ==> '\n' !in l
    ensures RawLines(Join(lines, '\n') + "\n") == lines
  {
    hide Split, Join;
    SplitOfJoin(lines + [""], '\n');
    JoinOfConcat(lines, [""], '\n');
    JoinOfOne("");
    assert Join(lines, '\n') + ['\n'] + "" == Join(lines, '\n') + "\n";
    assert (lines + [""])[..|lines|] == lines;
  }

  /** Printed text without a newline does too, unless its last line is empty and not its only one. */
  lemma RawLinesWithoutNewline(lines: seq<string>)
    requires |lines| >= 1 && forall l :: l in lines ==> '\n' !in l
    requires lines[|lines| - 1] != "" || |lines| == 1
    ensures RawLines(Join(lines, '\n')) == lines && !EndsWithNewline(Join(lines, '\n'))
  {
    hide Split, Join;
    var text, last, front := Join(lines, '\n'), lines[|lines| - 1], lines[..|lines| - 1];
    SplitOfJoin(lines, '\n');
    assert lines == front + [last] && last in lines;
    JoinOfOne(last);
    if |lines| == 1 {
      assert lines == [last];
      assert |text| > 0 ==> text[|text| - 1] in last;
    } else {
      JoinOfConcat(front, [last], '\n');
      assert text[|text| - 1] == last[|last| - 1] && last[|last| - 1] in last;
    }
  }

  /** In that case its last newline is taken for a trailing one. */
  lemma EmptyLastLine(lines: seq<string>)
    requires |lines| > 1 && lines[|lines| - 1] == ""
    ensures Join(lines, '\n') == Join(lines[..|lines| - 1], '\n') + "\n"
  {
    hide Join;
    var front := lines[..|lines| - 1];
    assert lines == front + [""];
    JoinOfConcat(front, [""], '\n');
    JoinOfOne("");
    assert Join(front, '\n') + ['\n'] + "" == Join(front, '\n') + "\n";
  }

  lemma LinesLackNewline(lines: seq<string>)
    requires forall l :: l in lines ==> IsFrameText(l)
    ensures forall l :: l in lines ==> '\n' !in l
  {
  }

  lemma AppendNothing(text: string)
    ensures text + "" == text
  {
  }

  lemma RawLinesAreSome(input: string)
    ensures |RawLines(input)| >= 1
  {
    if EndsWithNewline(input) {
      SplitOfConcat(input[..|input| - 1], "", '\n');
      assert input[..|input| - 1] + ['\n'] + "" == input;
    }
  }

  // ----- when the whole filter is idempotent, read off the input -----

  /** Deduping again keeps the lines: equal neighbours are two lines that a pass would print for them. */
  predicate QuietLines(lines: seq<string>) {
    |lines| < 2 ||
    ((lines[0] == lines[1] ==> lines[0] == Marker(2) && (|lines| > 2 ==> lines[2] != lines[0])) &&
        QuietLines(lines[1..]))
  }

  lemma QuietStep(lines: seq<string>)
    requires lines != []
    ensures var k := LeadCount(lines); QuietLines(lines) <==> Quiet(Run(lines[0], k)) && QuietLines(lines[k..])
  {
    hide Marker;
    var k := LeadCount(lines);
    if k == 2 {
      assert lines[1..][1..] == lines[2..];
      assert lines[1] == lines[0];
    } else if k > 2 {
      assert lines[1] == lines[0] && lines[2] == lines[0];
    }
  }

  lemma AllQuietCons(run: Run, rest: seq<Run>)
    ensures (forall i :: 0 <= i < |[run] + rest| ==> Quiet(([run] + rest)[i])) <==>
            Quiet(run) && forall i :: 0 <= i < |rest| ==> Quiet(rest[i])
  {
    hide Quiet;
    var runs := [run] + rest;
    if forall i :: 0 <= i < |runs| ==> Quiet(runs[i]) {
      assert runs[0] == run;
      forall i | 0 <= i < |rest| ensures Quiet(rest[i]) {
        assert runs[i + 1] == rest[i];
      }
    }
  }

  lemma {:induction false} QuietRunsIff(lines: seq<string>)
    ensures QuietLines(lines) <==> forall i :: 0 <= i < |RunsOf(lines)| ==> Quiet(RunsOf(lines)[i])
    decreases |lines|
  {
    if lines != [] {
      hide LeadCount, Quiet, QuietLines;
      var k := LeadCount(lines);
      QuietStep(lines);
      QuietRunsIff(lines[k..]);
      AllQuietCons(Run(lines[0], k), RunsOf(lines[k..]));
      assert RunsOf(lines) == [Run(lines[0], k)] + RunsOf(lines[k..]);
    }
  }

  /** After a printed run the next printed line does not start another one by accident. */
  predicate Harmless(runs: seq<Run>, i: nat)
    requires i < |runs|
  {
    runs[i].count > 1 ==>
      && (runs[i].line == Marker(runs[i].count) ==> runs[i].count == 2)
      && (i + 1 < |runs| && runs[i + 1].line == Marker(runs[i].count) ==> runs[i].count == 2 && runs[i + 1].count != 2)
  }

  lemma MarkersDiffer(m: nat, n: nat)
    ensures Marker(m) == Marker(n) <==> m == n
  {
    hide Marker, MarkerCount;
    MarkerCountOfMarker(m);
    MarkerCountOfMarker(n);
  }

  lemma EmitHead(runs: seq<Run>)
    ensures runs == [] ==> Emit(runs) == [] && QuietLines([])
    ensures runs != [] ==> |Emit(runs)| >= 1 && Emit(runs)[0] == runs[0].line
    ensures runs != [] && runs[0].count > 1 ==>
              |Emit(runs)| >= 2 && Emit(runs)[1] == Marker(runs[0].count) && Emit(runs)[2..] == Emit(runs[1..])
    ensures runs != [] && runs[0].count <= 1 ==> Emit(runs)[1..] == Emit(runs[1..])
  {
  }

  lemma QuietUnfold(line: string, rest: seq<string>)
    ensures QuietLines([line] + rest) <==>
            && (rest != [] && line == rest[0] ==> line == Marker(2) && (|rest| > 1 ==> rest[1] != line))
            && QuietLines(rest)
  {
    hide Marker;
    assert ([line] + rest)[1..] == rest;
  }

  /** The printed lines are quiet exactly when every run is harmless where it stands. */
  lemma {:induction false} EmitIsQuietIff(runs: seq<Run>)
    requires Maximal(runs)
    ensures QuietLines(Emit(runs)) <==> forall i :: 0 <= i < |runs| ==> Harmless(runs, i)
  {
    if runs != [] {
      hide Marker, QuietLines, Emit;
      var r, rest := runs[0], runs[1..];
      var tail := Emit(rest);
      assert Maximal(rest);
      EmitIsQuietIff(rest);
      HarmlessShifts(runs);
      EmitHead(runs);
      EmitHead([]);
      if rest != [] {
        EmitHead(rest);
        MarkersDiffer(rest[0].count, r.count);
        if |rest| > 1 {
          EmitHead(rest[1..]);
        }
      }
      if r.count > 1 {
        MarkersDiffer(r.count, 2);
        QuietUnfold(r.line, [Marker(r.count)] + tail);
        QuietUnfold(Marker(r.count), tail);
        assert Emit(runs) == [r.line] + ([Marker(r.count)] + tail);
      } else {
        QuietUnfold(r.line, tail);
        assert Emit(runs) == [r.line] + tail;
      }
    }
  }

  lemma HarmlessShifts(runs: seq<Run>)
    requires runs != []
    ensures (forall i :: 0 <= i < |runs| ==> Harmless(runs, i)) <==>
            Harmless(runs, 0) && forall i :: 0 <= i < |runs| - 1 ==> Harmless(runs[1..], i)
  {
    hide Marker;
    forall i | 0 <= i < |runs| - 1 ensures Harmless(runs[1..], i) <==> Harmless(runs, i + 1) {
    }
    if forall i :: 0 <= i < |runs| - 1 ==> Harmless(runs[1..], i) {
      forall i | 0 < i < |runs| ensures Harmless(runs, i) {
        assert Harmless(runs[1..], i - 1);
      }
    }
  }

  lemma {:induction false} EmitConcat(a: seq<Run>, b: seq<Run>)
    ensures Emit(a + b) == Emit(a) + Emit(b)
  {
    hide EmitRun;
    if a == [] {
      assert a + b == b;
    } else {
      assert (a + b)[1..] == a[1..] + b;
      EmitConcat(a[1..], b);
    }
  }

  lemma {:induction false} QuietSnoc(lines: seq<string>, last: string)
    requires lines != [] && lines[|lines| - 1] != last
    ensures QuietLines(lines + [last]) <==> QuietLines(lines)
  {
    hide Marker;
    if |lines| >= 2 {
      QuietSnoc(lines[1..], last);
      assert (lines + [last])[1..] == lines[1..] + [last];
    } else {
      assert (lines + [last])[1..] == [last];
    }
  }

  /** An empty last line is a run of its own, so it stands after something else. */
  lemma EmptyLastIsAlone(runs: seq<Run>)
    requires Maximal(runs) && |Emit(runs)| > 1 && Emit(runs)[|Emit(runs)| - 1] == ""
    ensures Emit(runs)[|Emit(runs)| - 2] != ""
  {
    hide Emit, Marker;
    EmitHead([]);
    var n := |runs| - 1;
    assert runs == runs[..n] + [runs[n]];
    EmitConcat(runs[..n], [runs[n]]);
    EmitOne(runs[n]);
    MarkerIsFrameText(runs[n].count);
    if n > 0 {
      assert runs[..n] == runs[..n - 1] + [runs[n - 1]];
      EmitConcat(runs[..n - 1], [runs[n - 1]]);
      EmitOne(runs[n - 1]);
      MarkerIsFrameText(runs[n - 1].count);
      assert runs[n - 1].line != runs[n - 1 + 1].line;
    }
  }

  lemma EmitOne(run: Run)
    ensures Emit([run]) == EmitRun(run)
  {
    assert [run][1..] == [];
    assert EmitRun(run) + [] == EmitRun(run);
  }

  lemma TextsEqualIff(a: seq<string>, b: seq<string>, end: string)
    requires |a| >= 1 && |b| >= 1 && (forall l :: l in a ==> '\n' !in l) && forall l :: l in b ==> '\n' !in l
    ensures Join(a, '\n') + end == Join(b, '\n') + end <==> a == b
  {
    hide Join, Split;
    SplitOfJoin(a, '\n');
    SplitOfJoin(b, '\n');
    var x, y := Join(a, '\n'), Join(b, '\n');
    if x + end == y + end {
      assert |x| == |y|;
      assert x == (x + end)[..|x|] && y == (y + end)[..|y|];
    }
  }

  /** Squeezing a text whose lines are `lines` gives it back exactly when they are quiet. */
  lemma SqueezeKeepsIff(text: string, lines: seq<string>)
    requires |lines| >= 1 && (forall l :: l in lines ==> IsFrameText(l)) && RawLines(text) == lines
    requires text == Join(lines, '\n') + (if EndsWithNewline(text) then "\n" else "")
    ensures Squeezed(text, 0) == text <==> QuietLines(lines)
  {
    hide Join, RawLines, Frames, RunsOf, Emit, IsFrameText, QuietLines, Quiet;
    FramesOfFrameText(lines);
    DedupeKeepsIff(lines);
    QuietRunsIff(lines);
    DedupedIsFrameText(text);
    LinesLackNewline(Deduped(text));
    LinesLackNewline(lines);
    DedupedIsSome(text);
    TextsEqualIff(Deduped(text), lines, if EndsWithNewline(text) then "\n" else "");
  }

  lemma DedupedIsSome(input: string)
    ensures |Deduped(input)| >= 1
  {
    hide RawLines, RunsOf, Emit;
    var frames := Frames(RawLines(input));
    RawLinesAreSome(input);
    RunsAreLossless(frames);
    EmitHead(RunsOf(frames));
  }

  /** Whichever way the text ends, squeezing printed lines keeps them exactly when they are quiet. */
  lemma SecondPassIff(lines: seq<string>, newline: bool)
    requires |lines| >= 1 && forall l :: l in lines ==> IsFrameText(l)
    requires |lines| > 1 && lines[|lines| - 1] == "" ==> lines[|lines| - 2] != ""
    ensures var text := Join(lines, '\n') + (if newline then "\n" else ""); Squeezed(text, 0) == text <==>
            QuietLines(lines)
  {
    hide Join, RawLines, IsFrameText, QuietLines, Squeezed;
    var front, body := lines[..|lines| - 1], Join(lines, '\n');
    LinesLackNewline(lines);
    if newline {
      RawLinesWithNewline(lines);
      SqueezeKeepsIff(body + "\n", lines);
    } else {
      AppendNothing(body);
      if lines[|lines| - 1] != "" || |lines| == 1 {
        RawLinesWithoutNewline(lines);
        SqueezeKeepsIff(body, lines);
      } else {
        EmptyLastLine(lines);
        RawLinesWithNewline(front);
        SqueezeKeepsIff(body, front);
        assert lines == front + [""];
        QuietSnoc(front, "");
      }
    }
  }

  /**
   * The unwindowed filter is idempotent on an input exactly when, among its runs, none of three or more has a
   * marker of its own count as its line or right after it, and none of two has the marker of two, twice, after it.
   */
  lemma SqueezeIsIdempotentIff(input: string)
    ensures var runs := RunsOf(Frames(RawLines(input)));
            Squeezed(Squeezed(input, 0), 0) == Squeezed(input, 0) <==> forall i :: 0 <= i < |runs| ==> Harmless(runs, i)
  {
    var runs := RunsOf(Frames(RawLines(input)));
    DedupedIsSome(input);
    DedupedIsFrameText(input);
    hide Join, RawLines, Frames, RunsOf, Emit, IsFrameText, QuietLines, Harmless;
    RunsAreLossless(Frames(RawLines(input)));
    hide Maximal;
    EmitIsQuietIff(runs);
    if |Emit(runs)| > 1 && Emit(runs)[|Emit(runs)| - 1] == "" {
      EmptyLastIsAlone(runs);
    }
    SecondPassIff(Emit(runs), EndsWithNewline(input));
  }

  /** In particular it is idempotent on every input none of whose frames looks like a repeat marker. */
  lemma SqueezeIsIdempotent(input: string)
    requires forall f :: f in Frames(RawLines(input)) ==> !LooksLikeMarker(f)
    ensures Squeezed(Squeezed(input, 0), 0) == Squeezed(input, 0)
  {
    hide Frames, RawLines, RunsOf, Squeezed, LooksLikeMarker, Marker;
    var runs := RunsOf(Frames(RawLines(input)));
    SqueezeIsIdempotentIff(input);
    RunLinesAreFrames(Frames(RawLines(input)));
    forall i | 0 <= i < |runs| ensures Harmless(runs, i) {
      MarkerLooksLikeMarker(runs[i].count);
      assert RunLines(runs)[i] in RunLines(runs);
      if i + 1 < |runs| {
        assert RunLines(runs)[i + 1] in RunLines(runs);
      }
    }
  }

  // ----- the lines of the output text -----

  lemma FrameTextConcat(a: string, b: string)
    requires IsFrameText(a) && IsFrameText(b)
    ensures IsFrameText(a + b)
  {
  }

  lemma NumberIsFrameText(n: nat)
    ensures IsFrameText(Show(n))
  {
    assert AllDigits(Show(n));
  }

  lemma ElisionWords()
    ensures IsFrameText("[... ") && IsFrameText(" lines elided; ")
    ensures IsFrameText(" error/warning") && IsFrameText(" line(s) surfaced ...]")
  {
  }

  lemma ElisionIsFrameText(elided: nat, surfaced: nat)
    ensures IsFrameText(Elision(elided, surfaced))
  {
    var open, middle, what, close := "[... ", " lines elided; ", " error/warning", " line(s) surfaced ...]";
    ElisionWords();
    NumberIsFrameText(elided);
    NumberIsFrameText(surfaced);
    hide IsFrameText, Show;
    FrameTextConcat(open, Show(elided));
    FrameTextConcat(open + Show(elided), middle);
    FrameTextConcat(open + Show(elided) + middle, Show(surfaced));
    FrameTextConcat(open + Show(elided) + middle + Show(surfaced), what);
    FrameTextConcat(open + Show(elided) + middle + Show(surfaced) + what, close);
  }

  lemma WindowedIsFrameText(lines: seq<string>, maxLines: nat)
    requires forall l :: l in lines ==> IsFrameText(l)
    ensures forall l :: l in Windowed(lines, maxLines) ==> IsFrameText(l)
    ensures lines != [] ==> Windowed(lines, maxLines) != []
  {
    hide IsFrameText, IsSignal, Elision;
    if Fires(lines, maxLines) {
      var middle := Middle(lines, maxLines);
      ElisionIsFrameText(|middle|, |Signals(middle)|);
      SignalsAreMembers(middle);
    }
  }

  /** Reading the printed text line by line gives the printed lines, but for an empty last line. */
  lemma LinesOfText(lines: seq<string>, newline: bool)
    requires |lines| >= 1 && forall l :: l in lines ==> '\n' !in l
    ensures var out := RawLines(Join(lines, '\n') + (if newline then "\n" else ""));
            out == lines || (lines[|lines| - 1] == "" && out == lines[..|lines| - 1])
  {
    hide Join, RawLines;
    if newline {
      RawLinesWithNewline(lines);
    } else {
      AppendNothing(Join(lines, '\n'));
      if lines[|lines| - 1] != "" || |lines| == 1 {
        RawLinesWithoutNewline(lines);
      } else {
        EmptyLastLine(lines);
        RawLinesWithNewline(lines[..|lines| - 1]);
      }
    }
  }

  lemma OnlyBlanksGo(lines: seq<string>, out: seq<string>)
    requires |lines| >= 1 && (out == lines || (lines[|lines| - 1] == "" && out == lines[..|lines| - 1]))
    ensures forall l :: l in lines && l != "" ==> l in out
    ensures forall l :: l in out ==> l in lines
  {
    assert lines == lines[..|lines| - 1] + [lines[|lines| - 1]];
  }

  lemma OutputLines(input: string, maxLines: nat)
    ensures var lines, out := Windowed(Deduped(input), maxLines), RawLines(Squeezed(input, maxLines));
            && (forall l :: l in lines && l != "" ==> l in out)
            && (forall l :: l in out ==> l in lines && IsFrameText(l))
  {
    var frames := Frames(RawLines(input));
    RawLinesAreSome(input);
    RunsAreLossless(frames);
    DedupedIsFrameText(input);
    EmitHasTheLines(RunsOf(frames));
    hide Windowed, IsFrameText, RunsOf, Emit, Frames, Join, RawLines;
    assert Deduped(input) != [];
    hide Deduped;
    var lines := Windowed(Deduped(input), maxLines);
    WindowedIsFrameText(Deduped(input), maxLines);
    LinesLackNewline(lines);
    LinesOfText(lines, EndsWithNewline(input));
    OnlyBlanksGo(lines, RawLines(Squeezed(input, maxLines)));
  }

  lemma SignalIsNotEmpty()
    ensures !IsSignal("")
  {
    assert Lower("") == "";
    forall k | 0 <= k < |SIGNAL| ensures !Contains("", SIGNAL[k]) {
      assert |SIGNAL[k]| > 0;
    }
  }

  /** For every limit, each final frame that is an error or warning is a line of the output text. */
  lemma SignalFramesSurvive(input: string, maxLines: nat)
    ensures forall f :: f in Frames(RawLines(input)) && IsSignal(f) ==> f in RawLines(Squeezed(input, maxLines))
  {
    SignalIsNotEmpty();
    hide IsSignal, RunsOf, Emit, Windowed, RawLines, Squeezed, IsFrameText;
    var frames := Frames(RawLines(input));
    RunLinesAreFrames(frames);
    EmitHasTheLines(RunsOf(frames));
    WindowKeepsSignalLines(Deduped(input), maxLines);
    OutputLines(input, maxLines);
  }

  /** A line that ends in a carriage return, as every line of a CRLF file does, leaves an empty frame. */
  lemma CrlfLineIsLost(line: string)
    ensures CollapseCr(line + "\r") == ""
  {
    SplitOfConcat(line, "", '\r');
    SplitWithoutSeparator("", '\r');
    assert line + ['\r'] + "" == line + "\r";
  }

  /** So an error or warning line of the input is a line of the output exactly when it holds no carriage return. */
  lemma SignalLineSurvivesIff(input: string, maxLines: nat, line: string)
    requires line in RawLines(input) && IsSignal(line)
    ensures line in RawLines(Squeezed(input, maxLines)) <==> '\r' !in line
  {
    hide IsSignal, RawLines, Squeezed;
    OutputLines(input, maxLines);
    if '\r' !in line {
      SplitWithoutSeparator(line, '\r');
      var i :| 0 <= i < |RawLines(input)| && RawLines(input)[i] == line;
      assert Frames(RawLines(input))[i] == line;
      SignalFramesSurvive(input, maxLines);
    }
  }

  // ----- the code -----

  datatype Stats = Stats(redraws: nat, groups: nat, removed: nat, elided: nat, surfaced: nat)

  /** The lines that were redrawn in place. */
  function Redraws(raw: seq<string>): nat {
    if raw == [] then 0 else Redraws(raw[..|raw| - 1]) + (if '\r' in raw[|raw| - 1] then 1 else 0)
  }

  function StatsOf(input: string, maxLines: nat): Stats {
    var raw, lines := RawLines(input), Deduped(input);
    var runs := RunsOf(Frames(raw));
    Stats(Redraws(raw), Groups(runs), Removed(runs),
          if Fires(lines, maxLines) then |Middle(lines, maxLines)| else 0,
          if Fires(lines, maxLines) then |Signals(Middle(lines, maxLines))| else 0)
  }

  lemma RedrawsSnoc(raw: seq<string>, k: nat)
    requires k < |raw|
    ensures Redraws(raw[..k + 1]) == Redraws(raw[..k]) + (if '\r' in raw[k] then 1 else 0)
  {
    assert raw[..k + 1][..k] == raw[..k];
  }

  lemma LeadCountIs(frames: seq<string>, k: nat)
    requires 1 <= k <= |frames|
    requires forall i :: 0 <= i < k ==> frames[i] == frames[0]
    requires k < |frames| ==> frames[k] != frames[0]
    ensures LeadCount(frames) == k
  {
    var n := LeadCount(frames);
  }

  lemma RunsFrom(frames: seq<string>, i: nat, k: nat)
    requires i < i + k <= |frames|
    requires forall j :: i <= j < i + k ==> frames[j] == frames[i]
    requires i + k < |frames| ==> frames[i + k] != frames[i]
    ensures RunsOf(frames[i..]) == [Run(frames[i], k)] + RunsOf(frames[i + k..])
  {
    var rest := frames[i..];
    assert forall j :: 0 <= j < |rest| ==> rest[j] == frames[i + j];
    LeadCountIs(rest, k);
    assert rest[k..] == frames[i + k..];
  }

  /** The inner loop: how many lines from `i` on have the frame of line `i`. */
  method RunLength(raw: seq<string>, i: nat, seen: nat) returns (count: nat, redraws: nat)
    requires i < |raw| && seen == Redraws(raw[..i + 1])
    ensures 1 <= count && i + count <= |raw|
    ensures forall j :: i <= j < i + count ==> CollapseCr(raw[j]) == CollapseCr(raw[i])
    ensures i + count < |raw| ==> CollapseCr(raw[i + count]) != CollapseCr(raw[i])
    ensures redraws == Redraws(raw[..i + count])
  {
    hide CollapseCr, Redraws;
    count, redraws := 1, seen;
    while i + count < |raw| && CollapseCr(raw[i + count]) == CollapseCr(raw[i])
      invariant 1 <= count && i + count <= |raw|
      invariant forall j :: i <= j < i + count ==> CollapseCr(raw[j]) == CollapseCr(raw[i])
      invariant redraws == Redraws(raw[..i + count])
    {
      RedrawsSnoc(raw, i + count);
      if '\r' in raw[i + count] {
        redraws := redraws + 1;
      }
      count := count + 1;
    }
  }

  /** The run-length loop: one run per turn, the counters growing with it. */
  method Dedupe(raw: seq<string>) returns (deduped: seq<string>, redraws: nat, groups: nat, removed: nat)
    ensures deduped == Emit(RunsOf(Frames(raw)))
    ensures redraws == Redraws(raw)
    ensures groups == Groups(RunsOf(Frames(raw))) && removed == Removed(RunsOf(Frames(raw)))
  {
    ghost var frames := Frames(raw);
    hide RunsOf, Emit, Groups, Removed, CollapseCr, Redraws, Marker, Frames, LeadCount;
    deduped, redraws, groups, removed := [], 0, 0, 0;
    NothingYet(frames);
    assert raw[..0] == [] && frames[0..] == frames;
    var i := 0;
    while i < |raw|
      invariant 0 <= i <= |raw|
      invariant deduped + Emit(RunsOf(frames[i..])) == Emit(RunsOf(frames))
      invariant redraws == Redraws(raw[..i])
      invariant groups + Groups(RunsOf(frames[i..])) == Groups(RunsOf(frames))
      invariant removed + Removed(RunsOf(frames[i..])) == Removed(RunsOf(frames))
    {
      if '\r' in raw[i] {
        redraws := redraws + 1;
      }
      RedrawsSnoc(raw, i);
      var line, count := CollapseCr(raw[i]), 0;
      count, redraws := RunLength(raw, i, redraws);
      RunsFrom(frames, i, count);
      ExpandCons(Run(line, count), RunsOf(frames[i + count..]));
      deduped := deduped + [line];
      if count > 1 {
        deduped := deduped + [Marker(count)];
        groups, removed := groups + 1, removed + (count - 1);
      }
      i := i + count;
    }
    assert raw[..i] == raw && frames[i..] == [];
  }

  lemma NothingYet(frames: seq<string>)
    ensures Redraws([]) == 0 && RunsOf([]) == [] && Emit([]) == [] && Groups([]) == 0 && Removed([]) == 0
    ensures [] + Emit(RunsOf(frames)) == Emit(RunsOf(frames))
  {
  }

  lemma SignalsSnoc(lines: seq<string>, k: nat)
    requires k < |lines|
    ensures Signals(lines[..k + 1]) == Signals(lines[..k]) + (if IsSignal(lines[k]) then [lines[k]] else [])
  {
    hide IsSignal;
    assert lines[..k + 1] == lines[..k] + [lines[k]];
    SignalsConcat(lines[..k], [lines[k]]);
    assert [lines[k]][1..] == [];
  }

  /** The lines of an elided region that are kept. */
  method Surface(lines: seq<string>) returns (signals: seq<string>)
    ensures signals == Signals(lines)
  {
    signals := [];
    assert lines[..0] == [];
    for i := 0 to |lines|
      invariant signals == Signals(lines[..i])
    {
      SignalsSnoc(lines, i);
      if IsSignal(lines[i]) {
        signals := signals + [lines[i]];
      }
    }
    assert lines[..|lines|] == lines;
  }

  /** `window` */
  method Window(lines: seq<string>, maxLines: nat) returns (out: seq<string>, elided: nat, surfaced: nat)
    ensures IsWindow(out, lines, maxLines) && out == Windowed(lines, maxLines)
    ensures elided == if Fires(lines, maxLines) then |Middle(lines, maxLines)| else 0
    ensures surfaced == if Fires(lines, maxLines) then |Signals(Middle(lines, maxLines))| else 0
  {
    hide Signals, Elision, IsWindow;
    WindowIs(lines, maxLines);
    if maxLines == 0 || |lines| <= maxLines {
      return lines, 0, 0;
    }
    var half := if maxLines / 2 > 1 then maxLines / 2 else 1;
    var head, tail, middle := lines[..half], lines[|lines| - half..], lines[half..|lines| - half];
    var signals := Surface(middle);
    return head + [Elision(|middle|, |signals|)] + signals + tail, |middle|, |signals|;
  }

  /** `squeeze` */
  method SqueezeLoop(input: string, maxLines: nat) returns (out: string, stats: Stats)
    ensures out == Squeezed(input, maxLines)
    ensures exists lines :: IsWindow(lines, Deduped(input), maxLines)
                         && out == Join(lines, '\n') + (if EndsWith(input, "\n") then "\n" else "")
    ensures stats == StatsOf(input, maxLines)
  {
    hide RunsOf, Emit, Frames, Windowed, Signals, Split, Join, IsWindow;
    var trailing := EndsWithNewline(input);
    var raw := Split(input, '\n');
    if trailing {
      raw := raw[..|raw| - 1];
    }
    var deduped, redraws, groups, removed := Dedupe(raw);
    stats := Stats(redraws, groups, removed, 0, 0);
    var windowed, elided, surfaced := Window(deduped, maxLines);
    stats := stats.(elided := elided, surfaced := surfaced);
    out := Join(windowed, '\n') + (if trailing then "\n" else "");
  }
}
