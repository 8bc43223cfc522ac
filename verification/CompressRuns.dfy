/**
 * Runs of `crabcc compress` one after another. Every run trains a table of its own and overwrites
 * the one on disk, while rows encoded earlier stay as they are: what do readers see then?
 */
module CompressRuns {
  import opened Results
  import opened Fsst
  import opened Rebuild

  ghost predicate KeepsViews(wide: bool, before: Index, after: Index) {
    && before.rows.Keys == after.rows.Keys
    && forall id :: id in before.rows ==>
            View(after.table, wide, after.rows[id]) == View(before.table, wide, before.rows[id])
  }

  // ----- one row under a table it was not encoded with -----

  function CodesOf(c: Codec, plain: seq<Byte>): seq<Code> { Encode(c.table, c.choices(plain), plain, 0) }

  /** The new table knows every code of the row, and the codes spell the same text in it. */
  ghost predicate Rereads(c: Codec, table: Table, wide: bool, plain: seq<Byte>) {
    var codes := CodesOf(c, plain);
    plain == [] || (InTable(codes, |table|) && (|table| > 0 || !wide) && Expand(table, codes) == plain)
  }

  /** A row encoded by one run reads as its plaintext under another run's table exactly when it rereads. */
  lemma RereadIff(c: Codec, table: Table, wide: bool, plain: seq<Byte>)
    ensures Decompressed(table, wide, Compress(c, plain)) == plain <==> Rereads(c, table, wide, plain)
  {
    if plain == [] {
      DecompressOfEmpty(table, wide);
    } else {
      var codes := CodesOf(c, plain);
      var s := Serialize(codes);
      hide Encode, Expand, Serialize, Accepts, Parse;
      StreamIsNotEmpty(c, plain);
      if InTable(codes, |table|) {
        ParseOfSerialize(codes, |table|);
      } else if Accepts(s, |table|) {
        ParseOfSerialize(codes, 256);
        ParseIsTheSame(s, |table|, 256);
      }
    }
  }

  lemma StreamIsNotEmpty(c: Codec, plain: seq<Byte>)
    requires plain != []
    ensures CodesOf(c, plain) != [] && Serialize(CodesOf(c, plain)) != []
  {
  }

  /** What a stream parses into does not depend on the size of the table. */
  lemma {:induction false} ParseIsTheSame(s: seq<Byte>, n: nat, m: nat)
    requires Accepts(s, n) && Accepts(s, m)
    ensures Parse(s, n) == Parse(s, m)
    decreases |s|
  {
    if s != [] {
      ParseIsTheSame(s[if s[0] == ESCAPE then 2 else 1..], n, m);
    }
  }

  // ----- which rows no new table can hurt -----

  lemma {:induction false} AcceptsMore(s: seq<Byte>, n: nat, m: nat)
    requires Accepts(s, n) && n <= m
    ensures Accepts(s, m)
    decreases |s|
  {
    if s != [] {
      AcceptsMore(s[if s[0] == ESCAPE then 2 else 1..], n, m);
    }
  }

  lemma {:induction false} MeaningOfPairs(s: seq<Byte>, t: Table, u: Table)
    requires Accepts(s, 0) && Accepts(s, |t|) && Accepts(s, |u|)
    ensures Meaning(t, s) == Meaning(u, s)
    decreases |s|
  {
    if s != [] {
      MeaningStep(t, s);
      MeaningStep(u, s);
      MeaningOfPairs(s[2..], t, u);
    }
  }

  lemma MeaningIsNotEmpty(t: Table, s: seq<Byte>)
    requires ValidTable(t) && s != [] && Accepts(s, |t|)
    ensures Meaning(t, s) != []
  {
    MeaningStep(t, s);
  }

  /** As many symbols as a table can have, and all of them the same byte. */
  function FullTable(b: Byte): Table { seq(255, i => [b]) }

  /** The stream is empty, can be decoded under no table, or is all literals where that does not depend on the table. */
  predicate Immune(wide: bool, s: seq<Byte>) {
    s == [] || !Accepts(s, 255) || (EscapePairs(s) && !wide)
  }

  /** A stream decodes alike under all tables exactly when it is immune. */
  lemma ImmuneIff(wide: bool, s: seq<Byte>, table: Table)
    requires ValidTable(table)
    ensures Immune(wide, s) <==>
            forall t: Table :: ValidTable(t) ==> Decompressed(t, wide, s) == Decompressed(table, wide, s)
  {
    AcceptsZeroSymbols(s);
    if Immune(wide, s) {
      forall t: Table | ValidTable(t) ensures Decompressed(t, wide, s) == Decompressed(table, wide, s) {
        ImmuneDecodesAlike(wide, s, t, table);
      }
    } else {
      assert ValidTable([]) && Decompressed([], wide, s) == [];
      assert ValidTable(FullTable(0)) && Decompressed(FullTable(0), wide, s) != [] by {
        MeaningIsNotEmpty(FullTable(0), s);
      }
    }
  }

  lemma ImmuneDecodesAlike(wide: bool, s: seq<Byte>, t: Table, u: Table)
    requires Immune(wide, s) && ValidTable(t) && ValidTable(u)
    ensures Decompressed(t, wide, s) == Decompressed(u, wide, s)
  {
    AcceptsZeroSymbols(s);
    hide Accepts, Meaning, EscapePairs;
    if s == [] {
    } else if !Accepts(s, 255) {
      forall n: nat | n <= 255 && Accepts(s, n) ensures false {
        AcceptsMore(s, n, 255);
      }
    } else {
      AcceptsMore(s, 0, |t|);
      AcceptsMore(s, 0, |u|);
      MeaningOfPairs(s, t, u);
    }
  }

  /** What must hold of a row before a run so that its view survives whatever table the run trains. */
  predicate Survives(table: Option<Table>, wide: bool, row: Row, committed: bool) {
    row.signature.None?
    || (!row.enc && (!committed || row.signature.value == [] || !wide))
    || (row.enc && table.Some? && Immune(wide, row.signature.value))
  }

  /** The row as a run that trained `c` leaves it. */
  function Left(c: Codec, row: Row, committed: bool): Row { if committed then Convert(c, row) else row }

  lemma RowSurvivesIff(table: Option<Table>, wide: bool, row: Row, committed: bool)
    requires table.Some? ==> ValidTable(table.value)
    ensures Survives(table, wide, row, committed) <==>
            forall c: Codec :: ValidTable(c.table) ==>
                View(Some(c.table), wide, Left(c, row, committed)) == View(table, wide, row)
  {
    hide Decompressed, Compress, Immune, ValidTable;
    if IsCandidate(row) {
      PlainRowSurvivesIff(table, wide, row, committed);
    } else if row.signature.Some? {
      EncodedRowSurvivesIff(table, wide, row, committed);
    }
  }

  lemma PlainRowSurvivesIff(table: Option<Table>, wide: bool, row: Row, committed: bool)
    requires IsCandidate(row)
    ensures Survives(table, wide, row, committed) <==>
            forall c: Codec :: ValidTable(c.table) ==>
                View(Some(c.table), wide, Left(c, row, committed)) == View(table, wide, row)
  {
    hide Decompressed, Compress, Immune;
    forall c: Codec ensures View(Some(c.table), wide, row) == View(table, wide, row) {
    }
    forall c: Codec | committed
      ensures View(Some(c.table), wide, Left(c, row, committed)) == View(table, wide, row)
         <==> !(row.signature.value != [] && |c.table| == 0 && wide)
    {
      ConvertKeepsViewIff(c, wide, row);
    }
    var none := Codec([], plain => pos => None);
    assert ValidTable(none.table);
  }

  lemma EncodedRowSurvivesIff(table: Option<Table>, wide: bool, row: Row, committed: bool)
    requires row.signature.Some? && row.enc
    requires table.Some? ==> ValidTable(table.value)
    ensures Survives(table, wide, row, committed) <==>
            forall c: Codec :: ValidTable(c.table) ==>
                View(Some(c.table), wide, Left(c, row, committed)) == View(table, wide, row)
  {
    hide Decompressed, Immune;
    var s := row.signature.value;
    if table.Some? {
      ImmuneIff(wide, s, table.value);
      forall t: Table | !Immune(wide, s) && ValidTable(t) &&
          Decompressed(t, wide, s) != Decompressed(table.value, wide, s)
        ensures exists c: Codec ::
                  ValidTable(c.table) && Decompressed(c.table, wide, s) != Decompressed(table.value, wide, s)
      {
        assert Codec(t, plain => pos => None).table == t;
      }
    } else {
      var none := Codec([], plain => pos => None);
      assert ValidTable(none.table);
    }
  }

  /** The disk after a run that trained `c` and committed the conversion of `ids`. */
  function After(c: Codec, before: Index, ids: set<int>): Index {
    Index(Converted(c, before.rows, ids), Some(c.table), before.meta)
  }

  /**
   * A run keeps what every reader sees, whatever table it trains, exactly when each row before the run is
   * NULL, or plaintext that is not converted, is empty or is read without AVX2, or an immune stream that had
   * a table to be read with.
   */
  lemma RunKeepsViewsIff(wide: bool, before: Index, ids: set<int>)
    requires before.table.Some? ==> ValidTable(before.table.value)
    ensures (forall c: Codec :: ValidTable(c.table) ==> KeepsViews(wide, before, After(c, before, ids)))
       <==> forall id :: id in before.rows ==> Survives(before.table, wide, before.rows[id], id in ids)
  {
    hide View, Convert, Survives, ValidTable;
    forall id | id in before.rows
      ensures Survives(before.table, wide, before.rows[id], id in ids) <==>
              forall c: Codec :: ValidTable(c.table) ==>
                View(Some(c.table), wide, After(c, before, ids).rows[id]) == View(before.table, wide, before.rows[id])
    {
      RowSurvivesIff(before.table, wide, before.rows[id], id in ids);
      assert forall c: Codec :: After(c, before, ids).rows[id] == Left(c, before.rows[id], id in ids);
    }
  }

  // ----- the same for runs whose table has a symbol -----

  lemma {:induction false} FullTablesDiffer(s: seq<Byte>)
    requires Accepts(s, 255) && !Accepts(s, 0)
    ensures Meaning(FullTable(0), s) != Meaning(FullTable(1), s)
    decreases |s|
  {
    MeaningStep(FullTable(0), s);
    MeaningStep(FullTable(1), s);
    hide Meaning;
    if s[0] == ESCAPE {
      FullTablesDiffer(s[2..]);
      assert Meaning(FullTable(0), s)[1..] == Meaning(FullTable(0), s[2..]);
      assert Meaning(FullTable(1), s)[1..] == Meaning(FullTable(1), s[2..]);
    } else {
      assert Meaning(FullTable(0), s)[0] == 0;
      assert Meaning(FullTable(1), s)[0] == 1;
    }
  }

  /** The stream is empty, can be decoded under no table, or is all literals that the guard let through before. */
  predicate Steady(table: Table, wide: bool, s: seq<Byte>) {
    s == [] || !Accepts(s, 255) || (EscapePairs(s) && (|table| > 0 || !wide))
  }

  /** A stream decodes under every table with a symbol as it does under `table` exactly when it is steady. */
  lemma SteadyIff(table: Table, wide: bool, s: seq<Byte>)
    requires ValidTable(table)
    ensures Steady(table, wide, s) <==>
            forall t: Table :: ValidTable(t) && |t| > 0 ==> Decompressed(t, wide, s) == Decompressed(table, wide, s)
  {
    AcceptsZeroSymbols(s);
    if Steady(table, wide, s) {
      forall t: Table | ValidTable(t) && |t| > 0 ensures Decompressed(t, wide, s) == Decompressed(table, wide, s) {
        SteadyDecodesAlike(table, wide, s, t);
      }
    } else {
      var full := FullTable(0);
      assert ValidTable(full) && Decompressed(full, wide, s) == Meaning(full, s);
      if EscapePairs(s) {
        MeaningIsNotEmpty(full, s);
      } else {
        FullTablesDiffer(s);
        assert ValidTable(FullTable(1)) && Decompressed(FullTable(1), wide, s) == Meaning(FullTable(1), s);
      }
    }
  }

  lemma SteadyDecodesAlike(table: Table, wide: bool, s: seq<Byte>, t: Table)
    requires Steady(table, wide, s) && ValidTable(table) && ValidTable(t) && |t| > 0
    ensures Decompressed(t, wide, s) == Decompressed(table, wide, s)
  {
    AcceptsZeroSymbols(s);
    hide Accepts, Meaning, EscapePairs;
    if s == [] {
    } else if !Accepts(s, 255) {
      ImmuneDecodesAlike(wide, s, t, table);
    } else {
      AcceptsMore(s, 0, |t|);
      AcceptsMore(s, 0, |table|);
      MeaningOfPairs(s, t, table);
    }
  }

  /** What must hold of a row before a run so that its view survives whatever symbols the run trains. */
  predicate SurvivesSymbols(table: Option<Table>, wide: bool, row: Row) {
    row.enc && row.signature.Some? ==> table.Some? && Steady(table.value, wide, row.signature.value)
  }

  lemma RowSurvivesSymbolsIff(table: Option<Table>, wide: bool, row: Row, committed: bool)
    requires table.Some? ==> ValidTable(table.value)
    ensures SurvivesSymbols(table, wide, row) <==>
            forall c: Codec :: ValidTable(c.table) && |c.table| > 0 ==>
                View(Some(c.table), wide, Left(c, row, committed)) == View(table, wide, row)
  {
    hide Decompressed, Compress, Steady;
    if IsCandidate(row) {
      forall c: Codec | |c.table| > 0
        ensures View(Some(c.table), wide, Left(c, row, committed)) == View(table, wide, row)
      {
        ConvertKeepsViewIff(c, wide, row);
      }
    } else if row.signature.Some? {
      EncodedSurvivesSymbolsIff(table, wide, row.signature.value);
    }
  }

  lemma EncodedSurvivesSymbolsIff(table: Option<Table>, wide: bool, s: seq<Byte>)
    requires table.Some? ==> ValidTable(table.value)
    ensures (table.Some? && Steady(table.value, wide, s)) <==>
            forall c: Codec :: ValidTable(c.table) && |c.table| > 0 ==>
                Some(Decompressed(c.table, wide, s)) == View(table, wide, Row(Some(s), true))
  {
    hide Decompressed, Steady;
    if table.Some? {
      SteadyIff(table.value, wide, s);
      forall t: Table | ValidTable(t) && |t| > 0 && Decompressed(t, wide, s) != Decompressed(table.value, wide, s)
        ensures exists c: Codec :: ValidTable(c.table) && |c.table| > 0 &&
                  Decompressed(c.table, wide, s) != Decompressed(table.value, wide, s)
      {
        assert Codec(t, plain => pos => None).table == t;
      }
    } else {
      var full := Codec(FullTable(0), plain => pos => None);
      assert ValidTable(full.table) && |full.table| > 0;
    }
  }

  /**
   * A run keeps what every reader sees, whatever table with at least one symbol it trains, exactly when each row
   * that was encoded before had a table to be read with and is a steady stream. Plaintext is always safe.
   */
  lemma RunWithSymbolsKeepsViewsIff(wide: bool, before: Index, ids: set<int>)
    requires before.table.Some? ==> ValidTable(before.table.value)
    ensures (forall c: Codec ::
               ValidTable(c.table) && |c.table| > 0 ==> KeepsViews(wide, before, After(c, before, ids)))
       <==> forall id :: id in before.rows ==> SurvivesSymbols(before.table, wide, before.rows[id])
  {
    hide View, Convert, SurvivesSymbols, ValidTable;
    forall id | id in before.rows
      ensures SurvivesSymbols(before.table, wide, before.rows[id]) <==>
              forall c: Codec :: ValidTable(c.table) && |c.table| > 0 ==>
                View(Some(c.table), wide, After(c, before, ids).rows[id]) == View(before.table, wide, before.rows[id])
    {
      RowSurvivesSymbolsIff(before.table, wide, before.rows[id], id in ids);
      assert forall c: Codec :: After(c, before, ids).rows[id] == Left(c, before.rows[id], id in ids);
    }
  }

  /**
   * Of the rows that a run encoded, those that no later table can hurt are the empty ones and, without AVX2,
   * those that are all literals.
   */
  lemma EncodedRowIsImmuneIff(c: Codec, wide: bool, plain: seq<Byte>)
    requires ValidTable(c.table)
    ensures Immune(wide, Compress(c, plain)) <==>
            plain == [] || (!wide && forall i :: 0 <= i < |CodesOf(c, plain)| ==> CodesOf(c, plain)[i].Lit?)
  {
    if plain != [] {
      var codes := CodesOf(c, plain);
      var s := Serialize(codes);
      hide Encode, Serialize, Accepts, Parse, EscapePairs;
      StreamIsNotEmpty(c, plain);
      ParseOfSerialize(codes, |c.table|);
      AcceptsMore(s, |c.table|, 255);
      AcceptsZeroSymbols(s);
      if InTable(codes, 0) {
        ParseOfSerialize(codes, 0);
      }
      if Accepts(s, 0) {
        ParseIsTheSame(s, 0, |c.table|);
      }
      assert InTable(codes, 0) <==> forall i :: 0 <= i < |codes| ==> codes[i].Lit?;
    }
  }

  // ----- a first rebuild -----

  /**
   * As long as nothing is encoded yet, every committed batch of a run keeps every view, with a table of at least one
   * symbol.
   */
  lemma FirstRebuildKeepsViews(c: Codec, wide: bool, before: Index, after: Index, ids: seq<int>, done: nat,
      finished: bool)
    requires IsRun(c, before, after, ids, done, finished)
    requires forall id :: id in before.rows && before.rows[id].signature.Some? ==> !before.rows[id].enc
    requires |c.table| > 0 || !wide
    ensures KeepsViews(wide, before, after)
  {
    forall id | id in before.rows
      ensures View(after.table, wide, after.rows[id]) == View(before.table, wide, before.rows[id])
    {
      ConvertKeepsViewIff(c, wide, before.rows[id]);
    }
  }

  // ----- a run after a run -----

  lemma {:induction false} DistinctCount(ids: seq<int>)
    requires Distinct(ids)
    ensures |IdSet(ids)| == |ids|
  {
    if ids != [] {
      var n := |ids| - 1;
      assert ids == ids[..n] + [ids[n]];
      IdSetSnoc(ids[..n], ids[n]);
      assert ids[n] !in IdSet(ids[..n]);
      DistinctCount(ids[..n]);
    }
  }

  lemma {:induction false} SumWithout(f: int -> nat, ids: seq<int>, k: nat)
    requires k < |ids|
    ensures Sum(f, ids) == Sum(f, ids[..k] + ids[k + 1..]) + f(ids[k])
  {
    var n := |ids| - 1;
    var rest := ids[..k] + ids[k + 1..];
    if k == n {
      assert rest == ids[..n];
    } else {
      SumWithout(f, ids[..n], k);
      assert ids[..n][..k] + ids[..n][k + 1..] == rest[..n - 1];
      assert rest[n - 1] == ids[n];
    }
  }

  /** A total does not depend on the order of the scan. */
  lemma {:induction false} SumIsOrderFree(f: int -> nat, a: seq<int>, b: seq<int>)
    requires Distinct(a) && Distinct(b) && IdSet(a) == IdSet(b)
    ensures Sum(f, a) == Sum(f, b)
    decreases |a|
  {
    DistinctCount(a);
    DistinctCount(b);
    if a != [] {
      var n := |a| - 1;
      assert a[n] in IdSet(a);
      var k :| 0 <= k < |b| && b[k] == a[n];
      var rest := b[..k] + b[k + 1..];
      SumWithout(f, b, k);
      SameIdsWithoutOne(a, b, k);
      SumIsOrderFree(f, a[..n], rest);
    }
  }

  lemma SameIdsWithoutOne(a: seq<int>, b: seq<int>, k: nat)
    requires Distinct(a) && Distinct(b) && IdSet(a) == IdSet(b)
    requires a != [] && k < |b| && b[k] == a[|a| - 1]
    ensures Distinct(b[..k] + b[k + 1..]) && IdSet(b[..k] + b[k + 1..]) == IdSet(a[..|a| - 1])
  {
    var n, rest := |a| - 1, b[..k] + b[k + 1..];
    forall id ensures id in IdSet(rest) <==> id in IdSet(b) && id != b[k] {
      if id in IdSet(rest) {
        var i :| 0 <= i < |rest| && rest[i] == id;
        assert b[if i < k then i else i + 1] == id;
      }
      if id in IdSet(b) && id != b[k] {
        var i :| 0 <= i < |b| && b[i] == id;
        assert rest[if i < k then i else i - 1] == id;
      }
    }
    assert a == a[..n] + [a[n]];
    IdSetSnoc(a[..n], a[n]);
    assert a[n] !in IdSet(a[..n]);
  }

  lemma TotalsAreOrderFree(c: Codec, rows: Rows, a: seq<int>, b: seq<int>)
    requires Distinct(a) && Distinct(b) && IdSet(a) == IdSet(b)
    ensures TotalsOf(c, rows, a) == TotalsOf(c, rows, b)
  {
    hide Sum, Distinct, IdSet, PlainLens, EncodedLens;
    DistinctCount(a);
    DistinctCount(b);
    SumIsOrderFree(PlainLens(rows), a, b);
    SumIsOrderFree(EncodedLens(c, rows), a, b);
  }

  /** What is left to convert after a run. */
  lemma CandidatesAfter(c: Codec, before: Index, after: Index, ids: seq<int>, done: nat, finished: bool)
    requires IsRun(c, before, after, ids, done, finished)
    ensures Candidates(after.rows) == Candidates(before.rows) - IdSet(ids[..done])
    ensures |Candidates(before.rows)| == |ids| && |Candidates(after.rows)| == |ids| - done
    ensures done == 0 ==> after.rows == before.rows
  {
    var committed := IdSet(ids[..done]);
    DistinctCount(ids);
    DistinctCount(ids[..done]);
    forall id | id in committed ensures id in IdSet(ids) {
      var i :| 0 <= i < done && ids[..done][i] == id;
      assert ids[i] == id;
    }
    forall id ensures id in Candidates(after.rows) <==> id in Candidates(before.rows) - committed {
      if id in before.rows {
        hide Compress;
        assert after.rows[id] == if id in committed then Convert(c, before.rows[id]) else before.rows[id];
      }
    }
    if done == 0 {
      ConvertNothing(c, before.rows);
    }
  }

  /** Row by row: what was committed is converted, and a finished run has converted every candidate. */
  lemma RowsAfter(c: Codec, before: Index, after: Index, ids: seq<int>, done: nat, finished: bool)
    requires IsRun(c, before, after, ids, done, finished)
    ensures after.rows.Keys == before.rows.Keys && after.table == Some(c.table)
    ensures forall id :: id in before.rows ==> after.rows[id] == Left(c, before.rows[id], id in IdSet(ids[..done]))
    ensures finished ==> forall id :: id in before.rows ==> after.rows[id] == Convert(c, before.rows[id])
    ensures forall id :: id in IdSet(ids[..done]) ==> id in Candidates(before.rows)
  {
    hide Compress, TotalsOf;
    assert finished ==> ids[..done] == ids;
    forall id | id in IdSet(ids[..done]) ensures id in Candidates(before.rows) {
      var i :| 0 <= i < done && ids[..done][i] == id;
      assert ids[i] in IdSet(ids);
    }
  }

  /**
   * The totals after a run that was cut off and a second, finished run are those of one uninterrupted run
   * exactly when the cut came before the first commit, or there was nothing to convert, or everything had been
   * converted and the totals of an earlier run happen to be the same.
   */
  lemma MetaAfterResumeIff(c: Codec, d: Codec, start: Index, cut: Index, end: Index, whole: Index,
                           ids: seq<int>, done: nat, rest: seq<int>, all: seq<int>)
    requires IsRun(c, start, cut, ids, done, false)
    requires IsRun(d, cut, end, rest, |rest|, true)
    requires IsRun(d, start, whole, all, |all|, true)
    ensures end.meta == whole.meta <==> ids == [] || done == 0 || (done == |ids| && start.meta == whole.meta)
  {
    CandidatesAfter(c, start, cut, ids, done, false);
    CandidatesAfter(d, cut, end, rest, |rest|, true);
    CandidatesAfter(d, start, whole, all, |all|, true);
    if done == 0 {
      TotalsAreOrderFree(d, start.rows, rest, all);
    }
  }

  /**
   * What readers see after a cut run and a second, finished run, from a start with nothing encoded: every view is
   * kept exactly when each row of the cut run rereads under the second table, and no later row meets an empty
   * table with AVX2.
   */
  lemma ViewsAfterResumeIff(wide: bool, c: Codec, d: Codec, start: Index, cut: Index, end: Index,
                            ids: seq<int>, done: nat, rest: seq<int>)
    requires IsRun(c, start, cut, ids, done, false)
    requires IsRun(d, cut, end, rest, |rest|, true)
    requires forall id :: id in start.rows && start.rows[id].signature.Some? ==> !start.rows[id].enc
    ensures KeepsViews(wide, start, end) <==>
            forall id :: id in Candidates(start.rows) ==>
              var plain := start.rows[id].signature.value;
              if id in IdSet(ids[..done]) then Rereads(c, d.table, wide, plain)
              else plain == [] || |d.table| > 0 || !wide
  {
    RowsAfter(c, start, cut, ids, done, false);
    RowsAfter(d, cut, end, rest, |rest|, true);
    hide IsRun, IdSet, Rereads, Compress, View, Convert, Left;
    forall id | id in start.rows
      ensures View(end.table, wide, end.rows[id]) == View(start.table, wide, start.rows[id]) <==>
              (id in Candidates(start.rows) ==>
                 var plain := start.rows[id].signature.value;
                 if id in IdSet(ids[..done]) then Rereads(c, d.table, wide, plain)
                 else plain == [] || |d.table| > 0 || !wide)
    {
      ViewAfterTwo(wide, c, d, start.rows[id], id in IdSet(ids[..done]));
    }
  }

  lemma ViewAfterTwo(wide: bool, c: Codec, d: Codec, row: Row, committed: bool)
    requires row.signature.Some? ==> !row.enc
    ensures forall t: Option<Table> :: View(t, wide, row) == row.signature
    ensures View(Some(d.table), wide, Convert(d, Left(c, row, committed))) == row.signature <==>
            (IsCandidate(row) ==>
               if committed then Rereads(c, d.table, wide, row.signature.value)
               else row.signature.value == [] || |d.table| > 0 || !wide)
  {
    hide Decompressed, Compress, Rereads;
    if IsCandidate(row) {
      RereadIff(c, d.table, wide, row.signature.value);
      ConvertKeepsViewIff(d, wide, row);
    }
  }

  /**
   * Where the rows of the two histories differ: those of the cut run that the second table would have encoded
   * otherwise.
   */
  lemma RowsAfterResumeIff(c: Codec, d: Codec, start: Index, cut: Index, end: Index, whole: Index,
                           ids: seq<int>, done: nat, rest: seq<int>, all: seq<int>)
    requires IsRun(c, start, cut, ids, done, false)
    requires IsRun(d, cut, end, rest, |rest|, true)
    requires IsRun(d, start, whole, all, |all|, true)
    ensures end.rows == whole.rows <==>
            forall id :: id in IdSet(ids[..done]) ==>
              id in Candidates(start.rows) &&
                  Compress(c, start.rows[id].signature.value) == Compress(d, start.rows[id].signature.value)
  {
    RowsAfter(c, start, cut, ids, done, false);
    RowsAfter(d, cut, end, rest, |rest|, true);
    RowsAfter(d, start, whole, all, |all|, true);
    hide IsRun, IdSet, Compress;
    forall id | id in start.rows
      ensures end.rows[id] == whole.rows[id] <==>
              (id in IdSet(ids[..done]) ==>
                  Compress(c, start.rows[id].signature.value) == Compress(d, start.rows[id].signature.value))
    {
    }
    SameRows(end.rows, whole.rows);
  }

  lemma SameRows(a: Rows, b: Rows)
    requires a.Keys == b.Keys
    ensures a == b <==> forall id :: id in a ==> a[id] == b[id]
  {
    if forall id :: id in a ==> a[id] == b[id] {
      assert forall id :: id in a <==> id in a.Keys;
      assert forall id :: id in b <==> id in b.Keys;
      assert a == b;
    }
  }

  // ----- it does happen -----

  function FirstSymbolEverywhere(table: Table): Codec { Codec(table, plain => pos => Some(0)) }

  /**
   * One row, two finished runs, two tables of one symbol each: the row read [1], and now reads [2] for every
   * reader, and no candidate is left that a further run could repair.
   */
  lemma RetrainingGarblesARow(wide: bool)
    ensures var c, d := FirstSymbolEverywhere([[1]]), FirstSymbolEverywhere([[2]]);
            var row: Row := Row(Some([1]), false);
            var start := Index(map[7 := row], None, None);
            exists first, second ::
              && IsRun(c, start, first, [7], 1, true) && IsRun(d, first, second, [], 0, true)
              && View(start.table, wide, row) == Some([1]) == View(first.table, wide, first.rows[7])
              && View(second.table, wide, second.rows[7]) == Some([2]) && Candidates(second.rows) == {}
  {
    var c, d := FirstSymbolEverywhere([[1]]), FirstSymbolEverywhere([[2]]);
    var row: Row := Row(Some([1]), false);
    var start := Index(map[7 := row], None, None);
    var first := Index(Converted(c, start.rows, {7}), Some(c.table), Some(TotalsOf(c, start.rows, [7])));
    var second := Index(first.rows, Some(d.table), first.meta);
    OneSymbolStream(c);
    assert IdSet([7]) == {7} by {
      assert [7][0] == 7;
    }
    assert [7][..1] == [7];
    assert IsRun(c, start, first, [7], 1, true);
    assert first.rows == map[7 := Row(Some([0]), true)];
    NoIds();
    ConvertNothing(d, first.rows);
    assert IsRun(d, first, second, [], 0, true);
    OneSymbolReads([1], wide);
    OneSymbolReads([2], wide);
  }

  lemma OneSymbolStream(c: Codec)
    requires c == FirstSymbolEverywhere([[1]])
    ensures Compress(c, [1]) == [0]
  {
    assert Encode(c.table, c.choices([1]), [1], 1) == [];
    assert Encode(c.table, c.choices([1]), [1], 0) == [Sym(0)];
    assert [Sym(0)][1..] == [];
  }

  lemma OneSymbolReads(text: seq<Byte>, wide: bool)
    ensures Decompressed([text], wide, [0]) == text
  {
    assert [0][1..] == [];
    MeaningStep([text], [0]);
  }
}
