/**
 * `crabcc compress`: train a symbol table, overwrite the one on disk, and with `--rebuild`
 * re-encode every plaintext signature, one committed batch at a time.
 */
module Rebuild {
  import opened Results
  import opened Fsst
  import opened Sets

  const BATCH: nat := 1000

  /** The signature column (NULL is None) and the `signature_enc` flag. */
  datatype Row = Row(signature: Option<seq<Byte>>, enc: bool)

  type Rows = map<int, Row>

  /** A symbol table and, for each plaintext, some choice of matches. */
  datatype Codec = Codec(table: Table, choices: seq<Byte> -> (nat -> Option<nat>))

  function Compress(c: Codec, plain: seq<Byte>): seq<Byte> { Compressed(c.table, c.choices(plain), plain) }

  /** The signature a reader sees with the symbol table on disk, if there is one. */
  function View(table: Option<Table>, wide: bool, row: Row): Option<seq<Byte>> {
    if row.signature.None? then None
    else if !row.enc then row.signature
    else if table.None? then None
    else Some(Decompressed(table.value, wide, row.signature.value))
  }

  predicate IsCandidate(row: Row) { row.signature.Some? && !row.enc }

  function Candidates(rows: Rows): set<int> { set id | id in rows && IsCandidate(rows[id]) }

  function Convert(c: Codec, row: Row): Row {
    if IsCandidate(row) then Row(Some(Compress(c, row.signature.value)), true) else row
  }

  /** The table with the rows in `ids` converted. */
  function Converted(c: Codec, rows: Rows, ids: set<int>): Rows {
    map id | id in rows :: if id in ids then Convert(c, rows[id]) else rows[id]
  }

  function PlainLen(rows: Rows, id: int): nat {
    if id in rows && IsCandidate(rows[id]) then |rows[id].signature.value| else 0
  }

  function EncodedLen(c: Codec, rows: Rows, id: int): nat {
    if id in rows && IsCandidate(rows[id]) then |Compress(c, rows[id].signature.value)| else 0
  }

  function Sum(f: int -> nat, ids: seq<int>): nat {
    if ids == [] then 0 else Sum(f, ids[..|ids| - 1]) + f(ids[|ids| - 1])
  }

  function PlainLens(rows: Rows): int -> nat { id => PlainLen(rows, id) }

  function EncodedLens(c: Codec, rows: Rows): int -> nat { id => EncodedLen(c, rows, id) }

  function PlainBytes(rows: Rows, ids: seq<int>): nat { Sum(PlainLens(rows), ids) }

  function EncodedBytes(c: Codec, rows: Rows, ids: seq<int>): nat { Sum(EncodedLens(c, rows), ids) }

  function IdSet(ids: seq<int>): set<int> { set i | 0 <= i < |ids| :: ids[i] }

  predicate Distinct(ids: seq<int>) { forall i, j :: 0 <= i < j < |ids| ==> ids[i] != ids[j] }

  /** The two byte totals and the row count that `--stats` reports later. */
  datatype Totals = Totals(plainBytes: nat, encodedBytes: nat, rows: nat)

  function TotalsOf(c: Codec, rows: Rows, ids: seq<int>): Totals {
    Totals(PlainBytes(rows, ids), EncodedBytes(c, rows, ids), |ids|)
  }

  /** What is on disk: the rows, the symbol table file and the totals of the last finished rebuild. */
  datatype Index = Index(rows: Rows, table: Option<Table>, meta: Option<Totals>)

  /**
   * One run trained `c`, scanned the candidates in the order `ids` and committed the first `done` of
   * them; only a finished run stores totals, and only if there was something to convert.
   */
  ghost predicate IsRun(c: Codec, before: Index, after: Index, ids: seq<int>, done: nat, finished: bool) {
    && Distinct(ids) && IdSet(ids) == Candidates(before.rows) && done <= |ids| && (finished ==> done == |ids|)
    && after.rows == Converted(c, before.rows, IdSet(ids[..done]))
    && after.table == Some(c.table)
    && after.meta == if finished && ids != [] then Some(TotalsOf(c, before.rows, ids)) else before.meta
  }

  class Database {
    var rows: Rows
    var table: Option<Table>
    var meta: Option<Totals>

    constructor (rows: Rows)
      ensures Disk() == Index(rows, None, None)
    {
      this.rows, table, meta := rows, None, None;
    }

    function Disk(): Index
      reads this
    {
      Index(rows, table, meta)
    }

    /**
     * `run` without the probe and the statistics. `trained` is None when there is nothing to train on.
     * The process may die after `survive` committed batches.
     */
    method Run(trained: Option<Codec>, saveOk: bool, rebuild: bool, survive: nat)
      returns (ghost ids: seq<int>, done: nat, finished: bool)
      modifies this
      ensures trained.None? || !saveOk ==> Disk() == old(Disk())
      ensures trained.Some? && saveOk ==> IsRun(trained.value, old(Disk()), Disk(), ids, done, finished)
      ensures trained.Some? && saveOk && !rebuild ==> done == 0 && rows == old(rows) && meta == old(meta)
      ensures trained.Some? && saveOk && rebuild ==> done == if survive * 1000 < |ids| then survive * 1000 else |ids|
      ensures trained.Some? && saveOk && rebuild ==>
              (finished <==> ids == [] || (survive > 0 && (survive - 1) * 1000 >= |ids|))
    {
      ids, done, finished := [], 0, false;
      if trained.None? || !saveOk {
        return;
      }
      table := Some(trained.value.table);
      if rebuild {
        done, finished, ids := RebuildRows(trained.value, survive);
      } else {
        NoIds();
        ConvertNothing(trained.value, rows);
        ids := SelectCandidates();
        assert ids[..0] == [];
      }
    }

    /** The candidate scan, in whatever order the database gives the rows. */
    method SelectCandidates() returns (ids: seq<int>)
      ensures Distinct(ids) && IdSet(ids) == Candidates(rows)
    {
      hide Candidates, IdSet, Distinct;
      ids := [];
      NoIds();
      var left := Candidates(rows);
      while left != {}
        invariant Distinct(ids) && IdSet(ids) !! left && IdSet(ids) + left == Candidates(rows)
        decreases |left|
      {
        ghost var some := HasMember(left);
        var id :| id in left;
        IdSetSnoc(ids, id);
        DistinctSnoc(ids, id);
        ids, left := ids + [id], left - {id};
      }
    }

    /**
     * `rebuild_rows`. A process that dies after its last batch has not stored the totals yet. `ids` is
     * the scan's order.
     */
    method RebuildRows(c: Codec, survive: nat) returns (done: nat, finished: bool, ghost ids: seq<int>)
      modifies this`rows, this`meta
      ensures Distinct(ids) && IdSet(ids) == Candidates(old(rows))
      ensures done == if survive * 1000 < |ids| then survive * 1000 else |ids|
      ensures finished <==> ids == [] || (survive > 0 && (survive - 1) * 1000 >= |ids|)
      ensures finished ==> done == |ids|
      ensures rows == Converted(c, old(rows), IdSet(ids[..done]))
      ensures meta == if finished && ids != [] then Some(TotalsOf(c, old(rows), ids)) else old(meta)
    {
      var order := SelectCandidates();
      hide Converted, IdSet, Candidates, Distinct, PlainBytes, EncodedBytes;
      ids := order;
      assert ids[..0] == [] && ids[..|ids|] == ids;
      NoIds();
      ConvertNothing(c, rows);
      done, finished := 0, true;
      if |order| == 0 {
        return;
      }
      var before, after, batches := 0, 0, 0;
      while done < |order|
        invariant done <= |order| && order == ids
        invariant done == if batches * BATCH < |order| then batches * BATCH else |order|
        invariant batches > 0 ==> (batches - 1) * BATCH < |order|
        invariant batches <= survive && meta == old(meta)
        invariant rows == Converted(c, old(rows), IdSet(ids[..done]))
        invariant before == PlainBytes(old(rows), ids[..done])
        invariant after == EncodedBytes(c, old(rows), ids[..done])
      {
        if batches == survive {
          finished := false;
          return;
        }
        var end := if done + BATCH < |order| then done + BATCH else |order|;
        var tx;
        tx, before, after := ConvertBatch(c, old(rows), rows, order, done, end, before, after);
        rows := tx;
        done, batches := end, batches + 1;
      }
      if batches == survive {
        finished := false;
        return;
      }
      assert (survive - 1) * BATCH >= batches * BATCH;
      meta := Some(Totals(before, after, done));
    }
  }

  /** One transaction: select and update each id of the batch, counting bytes. */
  method ConvertBatch(c: Codec, ghost start: Rows, rows: Rows, ids: seq<int>, from: nat, end: nat, before: nat,
      after: nat)
    returns (tx: Rows, before': nat, after': nat)
    requires from <= end <= |ids| && Distinct(ids)
    requires rows == Converted(c, start, IdSet(ids[..from]))
    requires before == PlainBytes(start, ids[..from]) && after == EncodedBytes(c, start, ids[..from])
    ensures tx == Converted(c, start, IdSet(ids[..end]))
    ensures before' == PlainBytes(start, ids[..end]) && after' == EncodedBytes(c, start, ids[..end])
  {
    hide Converted, IdSet, Distinct, PlainBytes, EncodedBytes, Compress;
    tx, before', after' := rows, before, after;
    for i := from to end
      invariant tx == Converted(c, start, IdSet(ids[..i]))
      invariant before' == PlainBytes(start, ids[..i])
      invariant after' == EncodedBytes(c, start, ids[..i])
    {
      var id := ids[i];
      ConvertOneMore(c, start, ids, i);
      if id in tx && IsCandidate(tx[id]) {
        var plain := tx[id].signature.value;
        var encoded := Compress(c, plain);
        before', after' := before' + |plain|, after' + |encoded|;
        tx := tx[id := Row(Some(encoded), true)];
      } else if id in tx {
        assert tx[id := tx[id]] == tx;
      }
    }
  }

  lemma NoIds()
    ensures IdSet([]) == {} && Distinct([])
    ensures forall rows: Rows :: PlainBytes(rows, []) == 0
    ensures forall c: Codec, rows: Rows :: EncodedBytes(c, rows, []) == 0
  {
  }

  lemma DistinctSnoc(ids: seq<int>, id: int)
    requires Distinct(ids) && id !in IdSet(ids)
    ensures Distinct(ids + [id])
  {
    assert forall i :: 0 <= i < |ids| ==> ids[i] in IdSet(ids);
  }

  lemma IdSetSnoc(ids: seq<int>, id: int)
    ensures IdSet(ids + [id]) == IdSet(ids) + {id}
  {
    var longer := ids + [id];
    assert longer[|ids|] == id;
    assert forall i :: 0 <= i < |ids| ==> longer[i] == ids[i];
  }

  lemma ConvertNothing(c: Codec, rows: Rows)
    ensures Converted(c, rows, {}) == rows
  {
  }

  /** One more id of a duplicate-free scan: its row is still as it was, and the totals grow by it. */
  lemma ConvertOneMore(c: Codec, rows: Rows, ids: seq<int>, i: nat)
    requires i < |ids| && Distinct(ids)
    ensures var now := Converted(c, rows, IdSet(ids[..i]));
            && (ids[i] in now <==> ids[i] in rows)
            && (ids[i] in rows ==> now[ids[i]] == rows[ids[i]])
            && Converted(c, rows, IdSet(ids[..i + 1]))
            == if ids[i] in now then now[ids[i] := Convert(c, now[ids[i]])] else now
    ensures PlainBytes(rows, ids[..i + 1]) == PlainBytes(rows, ids[..i]) + PlainLen(rows, ids[i])
    ensures EncodedBytes(c, rows, ids[..i + 1]) == EncodedBytes(c, rows, ids[..i]) + EncodedLen(c, rows, ids[i])
  {
    hide Convert, PlainLen, EncodedLen;
    assert ids[..i + 1][..i] == ids[..i];
    assert ids[..i + 1] == ids[..i] + [ids[i]];
    IdSetSnoc(ids[..i], ids[i]);
    assert ids[i] !in IdSet(ids[..i]);
  }

  /**
   * Converting a row changes nothing for a reader - unless the row was plaintext and
   * not empty, the table has no symbols, and the reader's processor has AVX2.
   */
  lemma ConvertKeepsViewIff(c: Codec, wide: bool, row: Row)
    ensures View(Some(c.table), wide, Convert(c, row)) == View(Some(c.table), wide, row)
       <==> !(IsCandidate(row) && row.signature.value != [] && |c.table| == 0 && wide)
  {
    hide Decompressed, Compressed;
    if IsCandidate(row) {
      DecompressOfCompressIff(c.table, wide, c.choices(row.signature.value), row.signature.value);
    }
  }

  /**
   * To a reader with the run's own table each row reads alike before and after every committed batch; NULL and
   * already encoded rows are untouched.
   */
  lemma RebuildKeepsViews(c: Codec, wide: bool, rows: Rows, ids: set<int>)
    requires |c.table| > 0 || !wide
    ensures Converted(c, rows, ids).Keys == rows.Keys
    ensures forall id :: id in rows ==>
              View(Some(c.table), wide, Converted(c, rows, ids)[id]) == View(Some(c.table), wide, rows[id])
    ensures forall id :: id in rows && !IsCandidate(rows[id]) ==> Converted(c, rows, ids)[id] == rows[id]
  {
    forall id | id in rows
      ensures View(Some(c.table), wide, Converted(c, rows, ids)[id]) == View(Some(c.table), wide, rows[id])
    {
      ConvertKeepsViewIff(c, wide, rows[id]);
    }
  }
}
