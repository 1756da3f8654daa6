/**
 * `printRow`: the layout `cbt read` and `cbt lookup` print a row in. The
 * row key comes first, then the families in ascending order, and within a
 * family the cells by column; each cell's microsecond timestamp is shown
 * as a time built from nanoseconds. Formatting the time as a calendar date
 * and quoting the value are left out.
 */
module CbtPrint {
  import opened Text
  import opened Numbers
  import opened Rows

  /** One printed cell: its family, the cell, and its time in nanoseconds. */
  datatype Entry = Entry(family: Bytes, item: ReadItem, nanos: Int64)

  /** `int64(ts) * 1e3` in Go's wrapping int64 arithmetic. */
  function Nanos(micros: Int64): Int64
  {
    Wrap64(micros * 1000)
  }

  predicate StrictlySorted(s: seq<Bytes>)
  {
    forall i, j :: 0 <= i < j < |s| ==> Less(s[i], s[j])
  }

  /** Adds `f` to an ascending list of distinct names, keeping it ascending. */
  function InsertName(f: Bytes, names: seq<Bytes>): (r: seq<Bytes>)
    requires StrictlySorted(names) && f !in names
    ensures StrictlySorted(r)
    ensures |r| == |names| + 1
    ensures forall x :: x in r <==> x == f || x in names
  {
    if |names| == 0 then [f]
    else
      LessTotal(f, names[0]);
      if Less(f, names[0]) then
        assert forall j :: 0 < j < |names| ==> Less(names[0], names[j]);
        forall j | 0 <= j < |names|
          ensures Less(f, names[j])
        {
          if j > 0 {
            LessTransitive(f, names[0], names[j]);
          }
        }
        [f] + names
      else
        assert names[0] in names;
        assert Less(names[0], f);
        var rest := InsertName(f, names[1..]);
        assert forall x :: x in names[1..] ==> Less(names[0], x);
        assert forall j :: 0 <= j < |rest| ==> Less(names[0], rest[j]);
        [names[0]] + rest
  }

  /** The cells of `entries` that belong to family `f`, in order. */
  function ItemsOf(entries: seq<Entry>, f: Bytes): seq<ReadItem>
  {
    if |entries| == 0 then []
    else (if entries[0].family == f then [entries[0].item] else []) + ItemsOf(entries[1..], f)
  }

  lemma {:induction false} ItemsOfConcat(a: seq<Entry>, b: seq<Entry>, f: Bytes)
    ensures ItemsOf(a + b, f) == ItemsOf(a, f) + ItemsOf(b, f)
    decreases |a|
  {
    if |a| == 0 {
      assert a + b == b;
    } else {
      var ab := a + b;
      assert ab[0] == a[0];
      assert ab[1..] == a[1..] + b;
      ItemsOfConcat(a[1..], b, f);
      var h := if a[0].family == f then [a[0].item] else [];
      var x, y := ItemsOf(a[1..], f), ItemsOf(b, f);
      assert ItemsOf(ab, f) == h + (x + y);
      assert ItemsOf(a, f) == h + x;
      assert h + (x + y) == (h + x) + y;
    }
  }

  /** The printed entries of one family's cells. */
  function FamilyEntries(fam: Bytes, items: seq<ReadItem>): (r: seq<Entry>)
    ensures |r| == |items|
    ensures forall i :: 0 <= i < |r| ==> r[i] == Entry(fam, items[i], Nanos(items[i].timestamp))
  {
    if |items| == 0 then []
    else [Entry(fam, items[0], Nanos(items[0].timestamp))] + FamilyEntries(fam, items[1..])
  }

  lemma {:induction false} ItemsOfFamily(fam: Bytes, items: seq<ReadItem>, f: Bytes)
    ensures ItemsOf(FamilyEntries(fam, items), f) == if f == fam then items else []
    decreases |items|
  {
    if |items| > 0 {
      var e := FamilyEntries(fam, items);
      assert e[1..] == FamilyEntries(fam, items[1..]);
      ItemsOfFamily(fam, items[1..], f);
      if f == fam {
        assert items == [items[0]] + items[1..];
      }
    }
  }

  /** Families never descend along `entries`. */
  predicate FamiliesAscending(entries: seq<Entry>)
  {
    forall i, j :: 0 <= i < j < |entries| ==> LessEq(entries[i].family, entries[j].family)
  }

  /** Within a family, columns never descend along `entries`. */
  predicate ColumnsAscending(entries: seq<Entry>)
  {
    forall i, j :: 0 <= i < j < |entries| && entries[i].family == entries[j].family ==>
      LessEq(entries[i].item.column, entries[j].item.column)
  }

  /** Appending a later family's sorted cells keeps both orders. */
  lemma AppendFamilyOrdered(entries: seq<Entry>, fam: Bytes, sorted: seq<ReadItem>)
    requires FamiliesAscending(entries) && ColumnsAscending(entries)
    requires forall p :: 0 <= p < |entries| ==> Less(entries[p].family, fam)
    requires SortedByColumn(sorted)
    ensures FamiliesAscending(entries + FamilyEntries(fam, sorted))
    ensures ColumnsAscending(entries + FamilyEntries(fam, sorted))
  {
    var added := FamilyEntries(fam, sorted);
    var all := entries + added;
    forall i, j | 0 <= i < j < |all|
      ensures LessEq(all[i].family, all[j].family)
      ensures all[i].family == all[j].family ==> LessEq(all[i].item.column, all[j].item.column)
    {
      if j < |entries| {
      } else if i < |entries| {
        LessAsymmetric(entries[i].family, fam);
        LessIrreflexive(fam);
      } else {
        assert all[i] == added[i - |entries|] && all[j] == added[j - |entries|];
      }
    }
  }

  /** Appending family `fam`'s cells completes it and leaves the other families alone. */
  lemma AppendFamilyContents(entries: seq<Entry>, r: Row, done: seq<Bytes>, fam: Bytes, sorted: seq<ReadItem>)
    requires fam in r && fam !in done && multiset(sorted) == multiset(r[fam])
    requires forall f :: f in done ==> f in r && multiset(ItemsOf(entries, f)) == multiset(r[f])
    requires forall f :: f !in done ==> ItemsOf(entries, f) == []
    ensures forall f :: f in done + [fam] ==>
      multiset(ItemsOf(entries + FamilyEntries(fam, sorted), f)) == multiset(r[f])
    ensures forall f :: f !in done + [fam] ==> ItemsOf(entries + FamilyEntries(fam, sorted), f) == []
  {
    var added := FamilyEntries(fam, sorted);
    forall f
      ensures ItemsOf(entries + added, f) == ItemsOf(entries, f) + (if f == fam then sorted else [])
    {
      ItemsOfConcat(entries, added, f);
      ItemsOfFamily(fam, sorted, f);
    }
    assert ItemsOf(entries, fam) == [];
  }

  /** The families of `r`, ascending. */
  method SortedFamilies(r: Row) returns (fams: seq<Bytes>)
    ensures StrictlySorted(fams)
    ensures forall f :: f in fams <==> f in r
  {
    var remaining := r.Keys;
    fams := [];
    while remaining != {}
      invariant remaining <= r.Keys
      invariant StrictlySorted(fams)
      invariant forall f :: f in fams <==> f in r && f !in remaining
      decreases |remaining|
    {
      var f :| f in remaining;
      fams := InsertName(f, fams);
      remaining := remaining - {f};
    }
  }

  lemma PrefixSnoc(names: seq<Bytes>, i: nat)
    requires i < |names|
    ensures names[..i + 1] == names[..i] + [names[i]]
  {
  }

  lemma EarlierNamesLess(names: seq<Bytes>, i: nat)
    requires StrictlySorted(names) && i < |names|
    ensures forall x :: x in names[..i] ==> Less(x, names[i])
    ensures names[i] !in names[..i]
  {
    forall x | x in names[..i]
      ensures Less(x, names[i])
    {
      var k :| 0 <= k < i && names[..i][k] == x;
    }
    LessIrreflexive(names[i]);
  }

  /** `Row.Key()`: the key of the first cell of some non-empty family, or "". */
  method RowKey(r: Row) returns (key: Bytes)
    ensures HasCells(r) ==> exists f :: f in r && |r[f]| > 0 && key == r[f][0].row
    ensures !HasCells(r) ==> key == []
  {
    if HasCells(r) {
      var f :| f in r && |r[f]| > 0;
      key := r[f][0].row;
    } else {
      key := [];
    }
  }

  /**
   * `entries` holds exactly the first `i` families of `fams`, each complete,
   * in order, and with its times converted.
   */
  ghost predicate LaidOut(r: Row, fams: seq<Bytes>, i: nat, entries: seq<Entry>)
    requires i <= |fams|
  {
    && (forall p :: 0 <= p < |entries| ==> entries[p].family in fams[..i])
    && FamiliesAscending(entries) && ColumnsAscending(entries)
    && (forall f :: f in fams[..i] ==> f in r && multiset(ItemsOf(entries, f)) == multiset(r[f]))
    && (forall f :: f !in fams[..i] ==> ItemsOf(entries, f) == [])
    && (forall p :: 0 <= p < |entries| ==> entries[p].nanos == Nanos(entries[p].item.timestamp))
  }

  /** One more family appended keeps the layout invariant. */
  lemma LayOutStep(r: Row, fams: seq<Bytes>, i: nat, entries: seq<Entry>)
    requires StrictlySorted(fams) && (forall f :: f in fams <==> f in r)
    requires i < |fams| && LaidOut(r, fams, i, entries)
    ensures LaidOut(r, fams, i + 1, entries + FamilyEntries(fams[i], SortByColumn(r[fams[i]])))
  {
    var fam := fams[i];
    var sorted := SortByColumn(r[fam]);
    var added := FamilyEntries(fam, sorted);
    var all := entries + added;
    var before, upto := fams[..i], fams[..i + 1];
    assert upto == before + [fam] by {
      PrefixSnoc(fams, i);
    }
    assert forall x :: x in before ==> Less(x, fam) by {
      EarlierNamesLess(fams, i);
    }
    assert FamiliesAscending(all) && ColumnsAscending(all) by {
      AppendFamilyOrdered(entries, fam, sorted);
    }
    assert forall f :: f in upto ==> f in r && multiset(ItemsOf(all, f)) == multiset(r[f]) by {
      EarlierNamesLess(fams, i);
      AppendFamilyContents(entries, r, before, fam, sorted);
    }
    assert forall f :: f !in upto ==> ItemsOf(all, f) == [] by {
      EarlierNamesLess(fams, i);
      AppendFamilyContents(entries, r, before, fam, sorted);
    }
    forall p | 0 <= p < |all|
      ensures all[p].family in upto
      ensures all[p].nanos == Nanos(all[p].item.timestamp)
    {
      if p >= |entries| {
        assert all[p] == added[p - |entries|];
      }
    }
    LaidOutIntro(r, fams, i + 1, all);
  }

  lemma LaidOutIntro(r: Row, fams: seq<Bytes>, i: nat, entries: seq<Entry>)
    requires i <= |fams|
    requires forall p :: 0 <= p < |entries| ==> entries[p].family in fams[..i]
    requires FamiliesAscending(entries) && ColumnsAscending(entries)
    requires forall f :: f in fams[..i] ==> f in r && multiset(ItemsOf(entries, f)) == multiset(r[f])
    requires forall f :: f !in fams[..i] ==> ItemsOf(entries, f) == []
    requires forall p :: 0 <= p < |entries| ==> entries[p].nanos == Nanos(entries[p].item.timestamp)
    ensures LaidOut(r, fams, i, entries)
  {
  }

  /**
   * The cells of `r` family by family in the order of `fams`, each family's
   * cells sorted by column.
   */
  method LayOut(r: Row, fams: seq<Bytes>) returns (entries: seq<Entry>)
    requires StrictlySorted(fams)
    requires forall f :: f in fams <==> f in r
    ensures forall i :: 0 <= i < |entries| ==> entries[i].family in r
    ensures FamiliesAscending(entries) && ColumnsAscending(entries)
    ensures forall f :: f in r ==> multiset(ItemsOf(entries, f)) == multiset(r[f])
    ensures forall i :: 0 <= i < |entries| ==> entries[i].nanos == Nanos(entries[i].item.timestamp)
  {
    entries := [];
    var i := 0;
    while i < |fams|
      invariant 0 <= i <= |fams|
      invariant LaidOut(r, fams, i, entries)
    {
      LayOutStep(r, fams, i, entries);
      entries := entries + FamilyEntries(fams[i], SortByColumn(r[fams[i]]));
      i := i + 1;
    }
    assert fams[..i] == fams;
  }

  /**
   * What `printRow` prints: the row key, then every cell of the row,
   * grouped by family in ascending family order and by column within a
   * family, each with its time in nanoseconds.
   */
  method PrintRow(r: Row) returns (key: Bytes, entries: seq<Entry>)
    ensures HasCells(r) ==> exists f :: f in r && |r[f]| > 0 && key == r[f][0].row
    ensures !HasCells(r) ==> key == []
    ensures forall i :: 0 <= i < |entries| ==> entries[i].family in r
    ensures FamiliesAscending(entries) && ColumnsAscending(entries)
    ensures forall f :: f in r ==> multiset(ItemsOf(entries, f)) == multiset(r[f])
    ensures forall i :: 0 <= i < |entries| ==> entries[i].nanos == Nanos(entries[i].item.timestamp)
  {
    key := RowKey(r);
    var fams := SortedFamilies(r);
    entries := LayOut(r, fams);
  }

  // ---------------------------------------------------------------------
  // Timestamps.
  // ---------------------------------------------------------------------

  /**
   * Microsecond timestamps within the range of an int64 count of
   * nanoseconds convert exactly, and dividing by 1000 gives them back.
   */
  lemma NanosExact(micros: Int64)
    requires -TwoTo63 <= micros * 1000 < TwoTo63
    ensures Nanos(micros) == micros * 1000
    ensures Nanos(micros) / 1000 == micros
  {
  }

  /** The timestamp of the chunk-reader test cell. */
  lemma NanosCase()
    ensures Nanos(1428382701000000) == 1428382701000000000
  {
    NanosExact(1428382701000000);
  }
}
