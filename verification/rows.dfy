/**
 * The client's row data model: a `Row` maps a column family name to the
 * cells (`ReadItem`s) read from it, in the order the service sent them.
 */
module Rows {
  import opened Wrappers
  import opened Text
  import opened Numbers

  /** One cell: its row key, "family:qualifier" column, timestamp in microseconds and value. */
  datatype ReadItem = ReadItem(row: Bytes, column: Bytes, timestamp: Int64, value: Bytes)

  /** Family name to that family's cells. */
  type Row = map<Bytes, seq<ReadItem>>

  /** The column name `fmt.Sprintf("%s:%s", family, qualifier)`. */
  function ColumnName(family: Bytes, qualifier: Bytes): Bytes
  {
    family + [':'] + qualifier
  }

  /** `column[strings.Index(column, ":")+1:]`: the text after the first ':' (all of it when there is none). */
  function QualifierOf(column: Bytes): Bytes
  {
    match IndexOf(column, ':')
    case None => column
    case Some(i) => column[i + 1..]
  }

  /** The qualifier survives the column name when the family has no ':'. */
  lemma ColumnNameRoundTrip(family: Bytes, qualifier: Bytes)
    requires ':' !in family
    ensures QualifierOf(ColumnName(family, qualifier)) == qualifier
  {
    var c := ColumnName(family, qualifier);
    assert c[|family|] == ':' && c[..|family|] == family;
    assert IndexOf(c, ':') == Some(|family|);
    assert c[|family| + 1..] == qualifier;
  }

  /** Every cell of `r` carries the row key `key`. */
  predicate RowOf(r: Row, key: Bytes)
  {
    forall f, i :: f in r && 0 <= i < |r[f]| ==> r[f][i].row == key
  }

  predicate HasCells(r: Row)
  {
    exists f :: f in r && |r[f]| > 0
  }

  /**
   * `Row.Key()`: the row key of the first cell of some non-empty family (Go
   * takes whichever the map iteration reaches first), or "" for a row
   * without cells.
   */
  ghost function Key(r: Row): Bytes
  {
    if HasCells(r) then
      var f :| f in r && |r[f]| > 0;
      r[f][0].row
    else []
  }

  /** A row all of whose cells share a key reports that key. */
  lemma KeyOfRow(r: Row, key: Bytes)
    requires RowOf(r, key) && HasCells(r)
    ensures Key(r) == key
  {
  }

  // ---------------------------------------------------------------------
  // clearTimestamps
  // ---------------------------------------------------------------------

  function ClearItems(items: seq<ReadItem>): (r: seq<ReadItem>)
    ensures |r| == |items|
    ensures forall i :: 0 <= i < |r| ==> r[i].timestamp == 0
    ensures forall i :: 0 <= i < |r| ==>
      r[i].row == items[i].row && r[i].column == items[i].column && r[i].value == items[i].value
  {
    if |items| == 0 then [] else [items[0].(timestamp := 0)] + ClearItems(items[1..])
  }

  /**
   * `clearTimestamps(r)`: every timestamp becomes 0; families, cell order,
   * rows, columns and values are kept.
   */
  function ClearTimestamps(r: Row): (c: Row)
    ensures c.Keys == r.Keys
    ensures forall f :: f in r ==> |c[f]| == |r[f]|
    ensures forall f, i :: f in r && 0 <= i < |r[f]| ==>
      c[f][i] == ReadItem(r[f][i].row, r[f][i].column, 0, r[f][i].value)
  {
    map f | f in r :: ClearItems(r[f])
  }

  /** Clearing twice is clearing once. */
  lemma ClearTimestampsIdempotent(r: Row)
    ensures ClearTimestamps(ClearTimestamps(r)) == ClearTimestamps(r)
  {
    var c := ClearTimestamps(r);
    var cc := ClearTimestamps(c);
    forall f | f in r
      ensures cc[f] == c[f]
    {
    }
  }

  /** Clearing keeps the row key of every cell. */
  lemma ClearTimestampsKeepsKey(r: Row, key: Bytes)
    requires RowOf(r, key)
    ensures RowOf(ClearTimestamps(r), key)
    ensures HasCells(ClearTimestamps(r)) == HasCells(r)
  {
    var c := ClearTimestamps(r);
    if HasCells(r) {
      var f :| f in r && |r[f]| > 0;
      assert f in c && |c[f]| > 0;
    }
  }

  // ---------------------------------------------------------------------
  // byColumn: ordering cells by column name.
  // ---------------------------------------------------------------------

  predicate SortedByColumn(items: seq<ReadItem>)
  {
    forall i, j :: 0 <= i < j < |items| ==> LessEq(items[i].column, items[j].column)
  }

  lemma LessEqTransitive(a: Bytes, b: Bytes, c: Bytes)
    requires LessEq(a, b) && LessEq(b, c)
    ensures LessEq(a, c)
  {
    if a != b && b != c {
      LessTransitive(a, b, c);
    }
  }

  /** Every cell of `items` has a column at or after `low`. */
  predicate ColumnsFrom(low: Bytes, items: seq<ReadItem>)
  {
    forall j :: 0 <= j < |items| ==> LessEq(low, items[j].column)
  }

  lemma SortedCons(y: ReadItem, items: seq<ReadItem>)
    requires SortedByColumn(items) && ColumnsFrom(y.column, items)
    ensures SortedByColumn([y] + items)
  {
    var r := [y] + items;
    forall i, j | 0 <= i < j < |r|
      ensures LessEq(r[i].column, r[j].column)
    {
      if i > 0 {
        assert r[i] == items[i - 1] && r[j] == items[j - 1];
      } else {
        assert r[j] == items[j - 1];
      }
    }
  }

  /** A sorted list is bounded below by a column at or before its first. */
  lemma SortedFrom(low: Bytes, items: seq<ReadItem>)
    requires SortedByColumn(items) && |items| > 0 && LessEq(low, items[0].column)
    ensures ColumnsFrom(low, items)
  {
    forall j | 0 <= j < |items|
      ensures LessEq(low, items[j].column)
    {
      if j > 0 {
        LessEqTransitive(low, items[0].column, items[j].column);
      }
    }
  }

  /** A lower bound of every cell is one of any permutation of them. */
  lemma ColumnsFromPermutation(low: Bytes, items: seq<ReadItem>, other: seq<ReadItem>)
    requires ColumnsFrom(low, items) && multiset(other) == multiset(items)
    ensures ColumnsFrom(low, other)
  {
    forall j | 0 <= j < |other|
      ensures LessEq(low, other[j].column)
    {
      assert other[j] in multiset(items);
      var k :| 0 <= k < |items| && items[k] == other[j];
    }
  }

  /** Putting the head back in front of the insertion into the tail. */
  lemma InsertAfterHead(x: ReadItem, items: seq<ReadItem>, rest: seq<ReadItem>)
    requires SortedByColumn(items) && |items| > 0 && !LessEq(x.column, items[0].column)
    requires SortedByColumn(rest) && multiset(rest) == multiset(items[1..]) + multiset{x}
    ensures SortedByColumn([items[0]] + rest)
    ensures multiset([items[0]] + rest) == multiset(items) + multiset{x}
  {
    var y := items[0];
    LessTotal(x.column, y.column);
    assert items == [y] + items[1..];
    assert ColumnsFrom(y.column, items[1..] + [x]) by {
      SortedFrom(y.column, items);
      assert forall j :: 0 <= j < |items| - 1 ==> items[1..][j] == items[j + 1];
    }
    ColumnsFromPermutation(y.column, items[1..] + [x], rest);
    SortedCons(y, rest);
  }

  function InsertByColumn(x: ReadItem, items: seq<ReadItem>): (r: seq<ReadItem>)
    requires SortedByColumn(items)
    ensures SortedByColumn(r)
    ensures multiset(r) == multiset(items) + multiset{x}
  {
    if |items| == 0 then [x]
    else if LessEq(x.column, items[0].column) then
      SortedFrom(x.column, items);
      SortedCons(x, items);
      [x] + items
    else
      var rest := InsertByColumn(x, items[1..]);
      InsertAfterHead(x, items, rest);
      [items[0]] + rest
  }

  /**
   * `sort.Sort(byColumn(items))`: the same cells ordered by column name.
   * Go's sort is not stable, so only sortedness and the permutation are
   * promised; this definition happens to keep equal columns in order.
   */
  function SortByColumn(items: seq<ReadItem>): (r: seq<ReadItem>)
    ensures SortedByColumn(r)
    ensures multiset(r) == multiset(items)
    ensures |r| == |items|
  {
    if |items| == 0 then []
    else
      assert items == [items[0]] + items[1..];
      InsertByColumn(items[0], SortByColumn(items[1..]))
  }

  lemma SortTwo(x: ReadItem, y: ReadItem)
    requires Less(y.column, x.column)
    ensures SortByColumn([x, y]) == [y, x]
  {
    LessAsymmetric(y.column, x.column);
    LessIrreflexive(x.column);
    assert !LessEq(x.column, y.column);
    assert SortByColumn([y]) == [y] by {
      assert [y][1..] == [];
    }
    assert SortByColumn([x, y]) == InsertByColumn(x, [y]) by {
      assert [x, y][1..] == [y];
    }
    assert InsertByColumn(x, [y]) == [y] + InsertByColumn(x, []) by {
      assert [y][1..] == [];
    }
  }

  /** The single-row read of the integration test, ordered by column. */
  lemma ReadRowCase()
    ensures SortByColumn([
        ReadItem("jadams", "follows:tjefferson", 0, "1"),
        ReadItem("jadams", "follows:gwashington", 0, "1")]) ==
      [ReadItem("jadams", "follows:gwashington", 0, "1"),
       ReadItem("jadams", "follows:tjefferson", 0, "1")]
  {
    var t := ReadItem("jadams", "follows:tjefferson", 0, "1");
    var g := ReadItem("jadams", "follows:gwashington", 0, "1");
    assert DiffersAt(g.column, t.column, 8);
    LessAtDifference(g.column, t.column, 8);
    SortTwo(t, g);
  }
}
