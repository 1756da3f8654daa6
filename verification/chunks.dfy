/**
 * The streaming row assembler of the Bigtable client (`chunkReader.process`):
 * each ReadRows response carries a row key and a list of chunks, each chunk
 * either a family's cells or the signal that the row is complete. Cells are
 * gathered into the in-flight row until a commit chunk hands the row out.
 */
module ChunkReader {
  import opened Wrappers
  import opened Text
  import opened Numbers
  import opened Rows

  datatype Cell = Cell(timestampMicros: Int64, value: Bytes)
  datatype Column = Column(qualifier: Bytes, cells: seq<Cell>)
  datatype Family = Family(name: Bytes, columns: seq<Column>)

  /** One chunk of a response: a family's cells, or the commit of the row. */
  datatype Chunk = RowContents(family: Family) | CommitRow

  /** A ReadRows response message. */
  datatype Response = Response(rowKey: Bytes, chunks: seq<Chunk>)

  /** The row being assembled: its key and the cells gathered so far. */
  datatype Partial = Partial(key: Bytes, row: Row)

  /** The assembler before the first response and after each commit. */
  const Idle: Partial := Partial([], map[])

  /** Every gathered cell belongs to the in-flight key. */
  predicate Valid(p: Partial)
  {
    RowOf(p.row, p.key)
  }

  /** The cells of one column, as ReadItems of row `key` and column `column`. */
  function CellItems(key: Bytes, column: Bytes, cells: seq<Cell>): (items: seq<ReadItem>)
    ensures |items| == |cells|
    ensures forall i :: 0 <= i < |items| ==>
      items[i] == ReadItem(key, column, cells[i].timestampMicros, cells[i].value)
  {
    if |cells| == 0 then []
    else [ReadItem(key, column, cells[0].timestampMicros, cells[0].value)] + CellItems(key, column, cells[1..])
  }

  function ColumnsItems(key: Bytes, family: Bytes, columns: seq<Column>): (items: seq<ReadItem>)
    ensures forall i :: 0 <= i < |items| ==> items[i].row == key
  {
    if |columns| == 0 then []
    else
      CellItems(key, ColumnName(family, columns[0].qualifier), columns[0].cells)
      + ColumnsItems(key, family, columns[1..])
  }

  /**
   * The ReadItems of a family message, column by column and cell by cell,
   * each with row `key` and column "family:qualifier".
   */
  function FamilyItems(key: Bytes, f: Family): seq<ReadItem>
  {
    ColumnsItems(key, f.name, f.columns)
  }

  function Lookup(row: Row, family: Bytes): seq<ReadItem>
  {
    if family in row then row[family] else []
  }

  /** Appends a family's cells to that family's list, creating it on the first cell. */
  function AddFamily(row: Row, key: Bytes, f: Family): Row
  {
    var items := FamilyItems(key, f);
    if |items| == 0 then row else row[f.name := Lookup(row, f.name) + items]
  }

  /** What one response does: the assembler's next state and the row it completes, if any. */
  datatype Step = Step(next: Partial, emitted: Option<Row>)

  function ProcessChunks(key: Bytes, row: Row, chunks: seq<Chunk>): (s: Step)
    requires RowOf(row, key)
    ensures s.emitted.Some? <==> CommitRow in chunks
    ensures s.emitted.Some? ==> s.next == Idle && RowOf(s.emitted.value, key)
    ensures s.emitted.None? ==> s.next.key == key && RowOf(s.next.row, key)
    decreases |chunks|
  {
    if |chunks| == 0 then Step(Partial(key, row), None)
    else match chunks[0]
      case CommitRow => Step(Idle, Some(row))
      case RowContents(f) =>
        assert chunks == [chunks[0]] + chunks[1..];
        ProcessChunks(key, AddFamily(row, key, f), chunks[1..])
  }

  /** The key a response is for: its own, or the in-flight key when it names none. */
  function TargetKey(state: Partial, resp: Response): Bytes
  {
    if resp.rowKey == [] then state.key else resp.rowKey
  }

  /**
   * `chunkReader.process`: a response for the in-flight key, or naming no
   * key, continues that row; one for another key starts a new row (the
   * partial cells of the old one are dropped). Family chunks are appended
   * in order; the first commit chunk returns the row and leaves the
   * assembler idle.
   */
  function Process(state: Partial, resp: Response): (s: Step)
    requires Valid(state)
    ensures Valid(s.next)
    ensures s.emitted.Some? <==> CommitRow in resp.chunks
    ensures s.emitted.Some? ==> s.next == Idle && RowOf(s.emitted.value, TargetKey(state, resp))
    ensures s.emitted.None? ==> s.next.key == TargetKey(state, resp)
  {
    var key := TargetKey(state, resp);
    var base := if state.key == key then state.row else map[];
    ProcessChunks(key, base, resp.chunks)
  }

  /** The result of `process` for each response of a stream, in order. */
  function Run(state: Partial, resps: seq<Response>): (out: seq<Option<Row>>)
    requires Valid(state)
    ensures |out| == |resps|
    ensures forall i :: 0 <= i < |resps| ==> (out[i].Some? <==> CommitRow in resps[i].chunks)
    decreases |resps|
  {
    if |resps| == 0 then []
    else
      var s := Process(state, resps[0]);
      [s.emitted] + Run(s.next, resps[1..])
  }

  // ---------------------------------------------------------------------
  // Reference: the row a stream of family chunks should produce.
  // ---------------------------------------------------------------------

  /** The families carried by the chunks before the first commit. */
  function DataFamilies(chunks: seq<Chunk>): seq<Family>
  {
    if |chunks| == 0 then []
    else match chunks[0]
      case CommitRow => []
      case RowContents(f) => [f] + DataFamilies(chunks[1..])
  }

  /** All cells of family `name` in `fams`, in arrival order. */
  function ItemsNamed(key: Bytes, fams: seq<Family>, name: Bytes): seq<ReadItem>
  {
    if |fams| == 0 then []
    else
      ItemsNamed(key, fams[..|fams| - 1], name)
      + (if fams[|fams| - 1].name == name then FamilyItems(key, fams[|fams| - 1]) else [])
  }

  /**
   * `row` is what `fams` assemble into: a family is present exactly when the
   * families sent it at least one cell, and holds all those cells in order.
   */
  ghost predicate Assembled(row: Row, key: Bytes, fams: seq<Family>)
  {
    forall name ::
      && (name in row <==> |ItemsNamed(key, fams, name)| > 0)
      && (name in row ==> row[name] == ItemsNamed(key, fams, name))
  }

  lemma AddFamilyAssembles(row: Row, key: Bytes, fams: seq<Family>, f: Family)
    requires Assembled(row, key, fams)
    ensures Assembled(AddFamily(row, key, f), key, fams + [f])
  {
    var fams' := fams + [f];
    assert fams'[..|fams'| - 1] == fams;
    var row' := AddFamily(row, key, f);
    forall name
      ensures && (name in row' <==> |ItemsNamed(key, fams', name)| > 0)
              && (name in row' ==> row'[name] == ItemsNamed(key, fams', name))
    {
      assert ItemsNamed(key, fams', name) ==
        ItemsNamed(key, fams, name) + (if f.name == name then FamilyItems(key, f) else []);
    }
  }

  /** A family chunk first: it is added, and the rest of the chunks follow. */
  lemma ProcessChunksFamily(key: Bytes, row: Row, chunks: seq<Chunk>)
    requires RowOf(row, key) && |chunks| > 0 && chunks[0].RowContents?
    ensures RowOf(AddFamily(row, key, chunks[0].family), key)
    ensures ProcessChunks(key, row, chunks) == ProcessChunks(key, AddFamily(row, key, chunks[0].family), chunks[1..])
    ensures DataFamilies(chunks) == [chunks[0].family] + DataFamilies(chunks[1..])
  {
  }

  lemma {:induction false} ProcessChunksAssembles(key: Bytes, row: Row, fams: seq<Family>, chunks: seq<Chunk>)
    requires RowOf(row, key) && Assembled(row, key, fams)
    ensures var s := ProcessChunks(key, row, chunks);
      Assembled(if s.emitted.Some? then s.emitted.value else s.next.row, key, fams + DataFamilies(chunks))
    decreases |chunks|
  {
    if |chunks| == 0 {
      assert fams + [] == fams;
    } else if chunks[0].CommitRow? {
      assert fams + [] == fams;
    } else {
      var f := chunks[0].family;
      ProcessChunksFamily(key, row, chunks);
      AddFamilyAssembles(row, key, fams, f);
      ProcessChunksAssembles(key, AddFamily(row, key, f), fams + [f], chunks[1..]);
      assert fams + [f] + DataFamilies(chunks[1..]) == fams + DataFamilies(chunks);
    }
  }

  lemma EmptyAssembled(key: Bytes)
    ensures Assembled(map[], key, [])
  {
  }

  /**
   * One response: the row it completes, or the row it leaves in flight, is
   * the assembly of every family chunk sent for that key since the last
   * commit; a response for a different key starts from nothing.
   */
  lemma ProcessAssembles(state: Partial, fams: seq<Family>, resp: Response)
    requires Valid(state) && Assembled(state.row, state.key, fams)
    ensures var s := Process(state, resp);
      var key := TargetKey(state, resp);
      var before := if state.key == key then fams else [];
      Assembled(if s.emitted.Some? then s.emitted.value else s.next.row, key, before + DataFamilies(resp.chunks))
  {
    var key := TargetKey(state, resp);
    if state.key == key {
      ProcessChunksAssembles(key, state.row, fams, resp.chunks);
    } else {
      EmptyAssembled(key);
      ProcessChunksAssembles(key, map[], [], resp.chunks);
    }
  }

  /** A response naming no key is processed as if it named the in-flight one. */
  lemma EmptyKeyContinues(state: Partial, resp: Response)
    requires Valid(state) && resp.rowKey == []
    ensures Process(state, resp) == Process(state, Response(state.key, resp.chunks))
    ensures Process(state, resp) == ProcessChunks(state.key, state.row, resp.chunks)
  {
  }

  /** The families sent in a stream of responses, before each response's commit. */
  function StreamFamilies(resps: seq<Response>): seq<Family>
  {
    if |resps| == 0 then [] else StreamFamilies(resps[..|resps| - 1]) + DataFamilies(resps[|resps| - 1].chunks)
  }

  /** The stream carries one row: every response has key `key` and only the last one commits. */
  predicate OneRowStream(resps: seq<Response>, key: Bytes)
  {
    && |resps| > 0
    && (forall i :: 0 <= i < |resps| ==> resps[i].rowKey == key)
    && (forall i :: 0 <= i < |resps| - 1 ==> CommitRow !in resps[i].chunks)
    && CommitRow in resps[|resps| - 1].chunks
  }

  /** The state after a stream of responses. */
  function RunState(state: Partial, resps: seq<Response>): (end: Partial)
    requires Valid(state)
    ensures Valid(end)
    decreases |resps|
  {
    if |resps| == 0 then state else RunState(Process(state, resps[0]).next, resps[1..])
  }

  lemma {:induction false} RunStateSnoc(state: Partial, resps: seq<Response>, r: Response)
    requires Valid(state)
    ensures RunState(state, resps + [r]) == Process(RunState(state, resps), r).next
    ensures Run(state, resps + [r]) == Run(state, resps) + [Process(RunState(state, resps), r).emitted]
    decreases |resps|
  {
    if |resps| > 0 {
      assert (resps + [r])[1..] == resps[1..] + [r];
      RunStateSnoc(Process(state, resps[0]).next, resps[1..], r);
    } else {
      assert [r][1..] == [];
    }
  }

  /** `st` holds the assembly of `fams` for `key`, or is idle with nothing gathered. */
  ghost predicate Holds(st: Partial, key: Bytes, fams: seq<Family>)
  {
    (st.key == key && Assembled(st.row, key, fams)) || (st == Idle && fams == [])
  }

  lemma StepHolds(st: Partial, key: Bytes, fams: seq<Family>, r: Response)
    requires Valid(st) && Holds(st, key, fams) && r.rowKey == key
    ensures var s := Process(st, r);
      Assembled(if s.emitted.Some? then s.emitted.value else s.next.row, key, fams + DataFamilies(r.chunks))
    ensures CommitRow !in r.chunks ==> Holds(Process(st, r).next, key, fams + DataFamilies(r.chunks))
  {
    assert TargetKey(st, r) == key;
    if st.key == key {
      assert Assembled(st.row, key, fams) by {
        if !Assembled(st.row, key, fams) {
          assert st == Idle && fams == [];
          EmptyAssembled(key);
        }
      }
    } else {
      assert fams == [];
      assert [] + DataFamilies(r.chunks) == DataFamilies(r.chunks);
    }
    ProcessAssembles(st, fams, r);
  }

  lemma StreamFamiliesSnoc(resps: seq<Response>, r: Response)
    ensures StreamFamilies(resps + [r]) == StreamFamilies(resps) + DataFamilies(r.chunks)
  {
    assert (resps + [r])[..|resps|] == resps;
  }

  /** The state a stream without commits leaves behind holds its assembly so far. */
  lemma {:induction false} RunPrefix(resps: seq<Response>, key: Bytes)
    requires forall i :: 0 <= i < |resps| ==> resps[i].rowKey == key && CommitRow !in resps[i].chunks
    ensures Holds(RunState(Idle, resps), key, StreamFamilies(resps))
    ensures forall i :: 0 <= i < |resps| ==> Run(Idle, resps)[i] == None
  {
    if |resps| > 0 {
      var init := resps[..|resps| - 1];
      var last := resps[|resps| - 1];
      assert init + [last] == resps;
      RunPrefix(init, key);
      RunStateSnoc(Idle, init, last);
      StreamFamiliesSnoc(init, last);
      StepHolds(RunState(Idle, init), key, StreamFamilies(init), last);
    }
  }

  /**
   * A stream holding one row: every response before the commit yields no
   * row, and the committing response yields exactly one, whose cells are all
   * the family chunks' cells in arrival order.
   */
  lemma {:induction false} OneRowStreamAssembles(resps: seq<Response>, key: Bytes)
    requires OneRowStream(resps, key)
    ensures forall i :: 0 <= i < |resps| - 1 ==> Run(Idle, resps)[i] == None
    ensures Run(Idle, resps)[|resps| - 1].Some?
    ensures Assembled(Run(Idle, resps)[|resps| - 1].value, key, StreamFamilies(resps))
    ensures RowOf(Run(Idle, resps)[|resps| - 1].value, key)
  {
    var init := resps[..|resps| - 1];
    var last := resps[|resps| - 1];
    assert init + [last] == resps;
    RunPrefix(init, key);
    RunStateSnoc(Idle, init, last);
    StreamFamiliesSnoc(init, last);
    StepHolds(RunState(Idle, init), key, StreamFamilies(init), last);
  }

  // ---------------------------------------------------------------------
  // The chunk reader's test cases.
  // ---------------------------------------------------------------------

  /** A response's family chunk holding one cell, as the tests write them. */
  function DataChunk(family: Bytes, qualifier: Bytes, ts: Int64, data: Bytes): Chunk
  {
    RowContents(Family(family, [Column(qualifier, [Cell(ts, data)])]))
  }

  lemma DataChunkItems(key: Bytes, family: Bytes, qualifier: Bytes, ts: Int64, data: Bytes)
    ensures FamilyItems(key, DataChunk(family, qualifier, ts, data).family)
      == [ReadItem(key, ColumnName(family, qualifier), ts, data)]
  {
    var cols := [Column(qualifier, [Cell(ts, data)])];
    var column := ColumnName(family, qualifier);
    var items := CellItems(key, column, [Cell(ts, data)]);
    assert items == [ReadItem(key, column, ts, data)];
    assert cols[1..] == [];
    assert ColumnsItems(key, family, cols) == items + ColumnsItems(key, family, []);
  }

  /** A response for the in-flight key carrying one cell adds that cell to its family. */
  lemma OneCellResponse(st: Partial, family: Bytes, qualifier: Bytes, ts: Int64, data: Bytes)
    requires Valid(st)
    ensures Process(st, Response(st.key, [DataChunk(family, qualifier, ts, data)])) ==
      Step(Partial(st.key, st.row[family := Lookup(st.row, family) + [ReadItem(st.key, ColumnName(family, qualifier), ts, data)]]), None)
  {
    var c := DataChunk(family, qualifier, ts, data);
    var item := ReadItem(st.key, ColumnName(family, qualifier), ts, data);
    DataChunkItems(st.key, family, qualifier, ts, data);
    var row' := AddFamily(st.row, st.key, c.family);
    assert row' == st.row[family := Lookup(st.row, family) + [item]];
    ProcessChunksFamily(st.key, st.row, [c]);
    assert [c][1..] == [];
    assert ProcessChunks(st.key, row', []) == Step(Partial(st.key, row'), None);
  }

  /** A response for the in-flight key carrying one cell and the commit hands out the row with that cell. */
  lemma OneCellCommitResponse(st: Partial, family: Bytes, qualifier: Bytes, ts: Int64, data: Bytes)
    requires Valid(st)
    ensures Process(st, Response(st.key, [DataChunk(family, qualifier, ts, data), CommitRow])) ==
      Step(Idle, Some(st.row[family := Lookup(st.row, family) + [ReadItem(st.key, ColumnName(family, qualifier), ts, data)]]))
  {
    var c := DataChunk(family, qualifier, ts, data);
    var item := ReadItem(st.key, ColumnName(family, qualifier), ts, data);
    DataChunkItems(st.key, family, qualifier, ts, data);
    var row' := AddFamily(st.row, st.key, c.family);
    assert row' == st.row[family := Lookup(st.row, family) + [item]];
    ProcessChunksFamily(st.key, st.row, [c, CommitRow]);
    assert [c, CommitRow][1..] == [CommitRow];
    assert ProcessChunks(st.key, row', [CommitRow]) == Step(Idle, Some(row'));
  }

  /** A commit-only response for the in-flight key hands out the row. */
  lemma CommitResponse(st: Partial)
    requires Valid(st)
    ensures Process(st, Response(st.key, [CommitRow])) == Step(Idle, Some(st.row))
  {
  }

  lemma RunCons(state: Partial, r: Response, rest: seq<Response>)
    requires Valid(state)
    ensures Run(state, [r] + rest) == [Process(state, r).emitted] + Run(Process(state, r).next, rest)
  {
    assert ([r] + rest)[1..] == rest;
  }

  /** "single row single chunk": one response with the cell and the commit. */
  lemma SingleChunkCase()
    ensures Run(Idle, [Response("row1", [DataChunk("fam", "col1", 1428382701000000, "data"), CommitRow])])
      == [Some(map["fam" := [ReadItem("row1", "fam:col1", 1428382701000000, "data")]])]
  {
    var st := Partial("row1", map[]);
    var r := Response("row1", [DataChunk("fam", "col1", 1428382701000000, "data"), CommitRow]);
    assert Process(Idle, r) == Process(st, r);
    OneCellCommitResponse(st, "fam", "col1", 1428382701000000, "data");
    var it := ReadItem("row1", "fam:col1", 1428382701000000, "data");
    assert ColumnName("fam", "col1") == "fam:col1";
    assert Lookup(map[], "fam") + [it] == [it];
    assert Process(Idle, r).emitted == Some(map["fam" := [it]]);
    RunCons(Idle, r, []);
    assert [r] == [r] + [];
  }

  lemma RunThree(st: Partial, r1: Response, r2: Response, r3: Response)
    requires Valid(st)
    ensures var s1 := Process(st, r1); var s2 := Process(s1.next, r2); var s3 := Process(s2.next, r3);
      Run(st, [r1, r2, r3]) == [s1.emitted, s2.emitted, s3.emitted]
  {
    var resps := [r1, r2, r3];
    var s1 := Process(st, r1);
    var s2 := Process(s1.next, r2);
    var s3 := Process(s2.next, r3);
    assert resps[1..][1..][1..] == [];
    var out3 := Run(s2.next, resps[1..][1..]);
    assert out3 == [s3.emitted];
    var out2 := Run(s1.next, resps[1..]);
    assert out2 == [s2.emitted] + out3;
    assert Run(st, resps) == [s1.emitted] + out2;
  }

  /** Two one-cell responses for the same family and key, then a commit-only response. */
  lemma TwoCellsThenCommit(key: Bytes, family: Bytes, q1: Bytes, t1: Int64, d1: Bytes, q2: Bytes, t2: Int64, d2: Bytes)
    ensures Run(Idle, [
        Response(key, [DataChunk(family, q1, t1, d1)]),
        Response(key, [DataChunk(family, q2, t2, d2)]),
        Response(key, [CommitRow])])
      == [None, None, Some(map[family := [
          ReadItem(key, ColumnName(family, q1), t1, d1),
          ReadItem(key, ColumnName(family, q2), t2, d2)]])]
  {
    var i1 := ReadItem(key, ColumnName(family, q1), t1, d1);
    var i2 := ReadItem(key, ColumnName(family, q2), t2, d2);
    var r1 := Response(key, [DataChunk(family, q1, t1, d1)]);
    var r2 := Response(key, [DataChunk(family, q2, t2, d2)]);
    var r3 := Response(key, [CommitRow]);
    var p0 := Partial(key, map[]);
    var p1 := Partial(key, map[family := [i1]]);
    var p2 := Partial(key, map[family := [i1, i2]]);
    assert Process(Idle, r1) == Step(p1, None) by {
      assert Process(Idle, r1) == Process(p0, r1);
      OneCellResponse(p0, family, q1, t1, d1);
      assert Lookup(p0.row, family) + [i1] == [i1];
    }
    assert Process(p1, r2) == Step(p2, None) by {
      OneCellResponse(p1, family, q2, t2, d2);
      assert Lookup(p1.row, family) + [i2] == [i1, i2];
    }
    CommitResponse(p2);
    RunThree(Idle, r1, r2, r3);
  }

  /** "single row multiple chunks": two cells in two responses, then a commit-only response. */
  lemma MultipleChunksCase()
    ensures Run(Idle, [
        Response("row1", [DataChunk("fam", "col1", 1428382701000000, "data")]),
        Response("row1", [DataChunk("fam", "col2", 1428382702000000, "more data")]),
        Response("row1", [CommitRow])])
      == [None, None, Some(map["fam" := [
          ReadItem("row1", "fam:col1", 1428382701000000, "data"),
          ReadItem("row1", "fam:col2", 1428382702000000, "more data")]])]
  {
    TwoCellsThenCommit("row1", "fam", "col1", 1428382701000000, "data", "col2", 1428382702000000, "more data");
    assert ColumnName("fam", "col1") == "fam:col1";
    assert ColumnName("fam", "col2") == "fam:col2";
  }

  /**
   * The tests file each emitted row under its `Key()`, which is the row key
   * of the committing response, or the in-flight key when it names none.
   */
  lemma EmittedRowKey(state: Partial, resp: Response)
    requires Valid(state)
    requires Process(state, resp).emitted.Some? && HasCells(Process(state, resp).emitted.value)
    ensures Key(Process(state, resp).emitted.value) == TargetKey(state, resp)
  {
    KeyOfRow(Process(state, resp).emitted.value, TargetKey(state, resp));
  }

  /** A commit naming no key hands out the row in flight. */
  lemma KeylessCommit(st: Partial)
    requires Valid(st)
    ensures Process(st, Response([], [CommitRow])) == Step(Idle, Some(st.row))
  {
    EmptyKeyContinues(st, Response([], [CommitRow]));
    CommitResponse(st);
  }

  /** A cell for "row1", then a commit that repeats no key: the row is "row1"'s. */
  lemma KeylessCommitCase()
    ensures Run(Idle, [
        Response("row1", [DataChunk("fam", "col1", 1428382701000000, "data")]),
        Response([], [CommitRow])])
      == [None, Some(map["fam" := [ReadItem("row1", "fam:col1", 1428382701000000, "data")]])]
  {
    var it := ReadItem("row1", "fam:col1", 1428382701000000, "data");
    var r1 := Response("row1", [DataChunk("fam", "col1", 1428382701000000, "data")]);
    var r2 := Response([], [CommitRow]);
    var p0 := Partial("row1", map[]);
    var p1 := Partial("row1", map["fam" := [it]]);
    assert Process(Idle, r1) == Step(p1, None) by {
      assert Process(Idle, r1) == Process(p0, r1);
      OneCellResponse(p0, "fam", "col1", 1428382701000000, "data");
      assert ColumnName("fam", "col1") == "fam:col1";
      assert Lookup(p0.row, "fam") + [it] == [it];
    }
    KeylessCommit(p1);
    RunCons(Idle, r1, [r2]);
    RunCons(p1, r2, []);
    assert [r2] == [r2] + [];
    assert [r1, r2] == [r1] + [r2];
  }
}
