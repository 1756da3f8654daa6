/**
 * Row-key ranges of the Bigtable client: half-open intervals of row keys
 * under Go's byte-wise string order. The Go type keeps the upper bound as a
 * string and reserves "" for "no upper bound"; here that bound is an
 * `Option`, and `LimitOf` is the translation from the string convention.
 */
module RowRanges {
  import opened Wrappers
  import opened Text

  /** The keys `k` with `start <= k` and, when `limit` is present, `k < limit`. */
  datatype RowRange = RowRange(start: Bytes, limit: Option<Bytes>)

  /** Go's "" sentinel for an upper bound: the empty string means unbounded. */
  function LimitOf(end: Bytes): Option<Bytes>
  {
    if end == [] then None else Some(end)
  }

  /** The string the Go code keeps for a bound: "" when unbounded. */
  function SentinelOf(limit: Option<Bytes>): Bytes
  {
    limit.GetOr([])
  }

  predicate Contains(r: RowRange, row: Bytes)
  {
    LessEq(r.start, row) && (r.limit.None? || Less(row, r.limit.value))
  }

  /** The zero value `RowRange{}`, which reads the whole table. */
  const AllRows: RowRange := RowRange([], None)

  /** `NewRange(begin, end)`: [begin, end), with "" as an unbounded end. */
  function NewRange(begin: Bytes, end: Bytes): RowRange
  {
    RowRange(begin, LimitOf(end))
  }

  /** `InfiniteRange(start)`: every key from `start` on. */
  function InfiniteRange(start: Bytes): RowRange
  {
    RowRange(start, None)
  }

  /** `SingleRow(row)`: [row, row + "\x00"), the interval holding `row` alone. */
  function SingleRow(row: Bytes): RowRange
  {
    RowRange(row, Some(row + ['\0']))
  }

  predicate AllMax(s: Bytes)
  {
    forall i :: 0 <= i < |s| ==> s[i] == MaxByte
  }

  /** Position of the last byte of `p` that is not 0xff, scanning backwards. */
  function LastNonMax(p: Bytes): (r: Option<nat>)
    ensures r.None? <==> AllMax(p)
    ensures r.Some? ==> r.value < |p| && p[r.value] != MaxByte && AllMax(p[r.value + 1..])
  {
    if |p| == 0 then None
    else if p[|p| - 1] != MaxByte then Some(|p| - 1)
    else
      var r := LastNonMax(p[..|p| - 1]);
      assert r.Some? ==> p[r.value + 1..] == p[..|p| - 1][r.value + 1..] + [p[|p| - 1]];
      r
  }

  /**
   * `prefixSuccessor(prefix)`: drop the trailing 0xff bytes and increment the
   * last remaining byte. When nothing remains (the empty prefix, or a prefix
   * of 0xff bytes only) there is no finite successor and the result is `None`.
   */
  function PrefixSuccessor(prefix: Bytes): (r: Option<Bytes>)
    ensures r.None? <==> AllMax(prefix)
    ensures r.Some? ==>
      var n := |r.value| - 1;
      && 0 <= n < |prefix|
      && r.value[..n] == prefix[..n]
      && r.value[n] as int == prefix[n] as int + 1
      && AllMax(prefix[n + 1..])
  {
    match LastNonMax(prefix)
    case None => None
    case Some(i) =>
      var s := prefix[..i] + [(prefix[i] as int + 1) as char];
      assert s[..i] == prefix[..i];
      Some(s)
  }

  /** `PrefixRange(prefix)`: [prefix, prefixSuccessor(prefix)). */
  function PrefixRange(prefix: Bytes): RowRange
  {
    RowRange(prefix, PrefixSuccessor(prefix))
  }

  // ---------------------------------------------------------------------
  // Membership of each constructor.
  // ---------------------------------------------------------------------

  lemma AllRowsContains(row: Bytes)
    ensures Contains(AllRows, row)
  {
    if row != [] {
      LessOfProperPrefix([], row);
    }
  }

  /** NewRange is half-open; an empty `end` leaves it unbounded above. */
  lemma NewRangeContains(begin: Bytes, end: Bytes, row: Bytes)
    ensures Contains(NewRange(begin, end), row) <==> LessEq(begin, row) && (end == [] || Less(row, end))
  {
  }

  lemma InfiniteRangeContains(start: Bytes, row: Bytes)
    ensures Contains(InfiniteRange(start), row) <==> LessEq(start, row)
  {
  }

  /** `row + "\x00"` is the immediate successor of `row`. */
  lemma LessZeroSuccessor(row: Bytes, x: Bytes)
    ensures Less(x, row + ['\0']) <==> LessEq(x, row)
  {
    var succ := row + ['\0'];
    assert succ[..|row|] == row;
    LessOfProperPrefix(row, succ);
    if LessEq(x, row) && x != row {
      LessTransitive(x, row, succ);
    }
    if Less(x, succ) && !LessEq(x, row) {
      LessTotal(x, row);
      assert Less(row, x);
      LessCases(row, x);
      if IsPrefix(row, x) && |row| < |x| {
        if x[|row|] == '\0' {
          assert x[..|succ|] == x[..|row|] + [x[|row|]];
          assert IsPrefix(succ, x);
          PrefixLessEq(succ, x);
        } else {
          assert succ[..|row|] == x[..|row|];
          assert DiffersAt(succ, x, |row|);
          LessAtDifference(succ, x, |row|);
        }
      } else {
        var d: nat :| DiffersAt(row, x, d);
        assert succ[..d] == row[..d];
        assert DiffersAt(succ, x, d);
        LessAtDifference(succ, x, d);
      }
      assert LessEq(succ, x);
      LessIrreflexive(x);
      LessAsymmetric(x, succ);
      assert false;
    }
  }

  /** SingleRow(row) selects `row` and nothing else. */
  lemma SingleRowContains(row: Bytes, x: Bytes)
    ensures Contains(SingleRow(row), x) <==> x == row
  {
    LessZeroSuccessor(row, x);
    if LessEq(row, x) && LessEq(x, row) && x != row {
      LessAsymmetric(row, x);
    }
  }

  /** With only 0xff bytes, `p <= x` already forces `p` to be a prefix of `x`. */
  lemma AllMaxLessEq(p: Bytes, x: Bytes)
    requires AllMax(p)
    ensures LessEq(p, x) <==> IsPrefix(p, x)
  {
    if IsPrefix(p, x) {
      PrefixLessEq(p, x);
    }
    if Less(p, x) {
      LessCases(p, x);
      if !(IsPrefix(p, x) && |p| < |x|) {
        var d: nat :| DiffersAt(p, x, d);
        assert false;
      }
    }
  }

  /** Every key starting with `p` lies below the successor of `p`. */
  lemma PrefixBelowSuccessor(p: Bytes, succ: Bytes, x: Bytes)
    requires PrefixSuccessor(p) == Some(succ) && IsPrefix(p, x)
    ensures Less(x, succ)
  {
    var n := |succ| - 1;
    assert x[..n] == p[..n] by {
      assert x[..|p|] == p;
      assert x[..n] == x[..|p|][..n];
    }
    assert x[n] == p[n];
    assert DiffersAt(x, succ, n);
    LessAtDifference(x, succ, n);
  }

  /** A key that differs from `p` before the incremented byte falls outside [p, succ). */
  lemma DifferBeforeIncrement(p: Bytes, succ: Bytes, x: Bytes, d: nat)
    requires PrefixSuccessor(p) == Some(succ) && DiffersAt(p, x, d) && d < |succ| - 1
    ensures !Less(x, succ)
  {
    var n := |succ| - 1;
    assert succ[..d] == p[..d] by {
      assert succ[..d] == succ[..n][..d];
      assert p[..d] == p[..n][..d];
    }
    assert succ[d] == p[d];
    assert DiffersAt(succ, x, d);
    LessAtDifference(succ, x, d);
    LessAsymmetric(x, succ);
  }

  /** A key above `p` that differs from it at the incremented byte is at least the successor. */
  lemma DifferAtIncrement(p: Bytes, succ: Bytes, x: Bytes)
    requires PrefixSuccessor(p) == Some(succ)
    requires DiffersAt(p, x, |succ| - 1)
    ensures !Less(x, succ)
  {
    var n := |succ| - 1;
    assert x[..n] == succ[..n];
    if x[n] == succ[n] {
      assert x[..n + 1] == x[..n] + [x[n]];
      assert x[..n + 1] == succ;
      PrefixLessEq(succ, x);
      LessIrreflexive(x);
      LessAsymmetric(x, succ);
    } else {
      assert DiffersAt(succ, x, n);
      LessAtDifference(succ, x, n);
      LessAsymmetric(x, succ);
    }
  }

  /** A key in [p, succ) starts with `p`. */
  lemma BelowSuccessorIsPrefix(p: Bytes, succ: Bytes, x: Bytes)
    requires PrefixSuccessor(p) == Some(succ) && LessEq(p, x) && Less(x, succ)
    ensures IsPrefix(p, x)
  {
    if !IsPrefix(p, x) {
      LessCases(p, x);
      var d: nat :| DiffersAt(p, x, d);
      var n := |succ| - 1;
      if d < n {
        DifferBeforeIncrement(p, succ, x, d);
      } else if d == n {
        DifferAtIncrement(p, succ, x);
      } else {
        assert false;
      }
    }
  }

  /**
   * PrefixRange(p) holds exactly the keys that start with `p`: the successor
   * is the exclusive upper bound of that set, and no bound is needed when
   * `p` has no finite successor.
   */
  lemma PrefixRangeContains(p: Bytes, x: Bytes)
    ensures Contains(PrefixRange(p), x) <==> IsPrefix(p, x)
  {
    match PrefixSuccessor(p)
    case None =>
      AllMaxLessEq(p, x);
    case Some(succ) =>
      if IsPrefix(p, x) {
        PrefixLessEq(p, x);
        PrefixBelowSuccessor(p, succ, x);
      }
      if Contains(PrefixRange(p), x) {
        BelowSuccessorIsPrefix(p, succ, x);
      }
  }

  /** A bounded successor is never "", so the Go sentinel is unambiguous. */
  lemma PrefixSuccessorNotSentinel(p: Bytes)
    ensures PrefixSuccessor(p).Some? ==> SentinelOf(PrefixSuccessor(p)) != []
    ensures LimitOf(SentinelOf(PrefixSuccessor(p))) == PrefixSuccessor(p)
  {
  }

  // ---------------------------------------------------------------------
  // The cases the client's tests fix.
  // ---------------------------------------------------------------------

  /** The prefix/successor pairs of the prefix test, in both representations. */
  lemma PrefixSuccessorCases()
    ensures PrefixSuccessor("") == None && SentinelOf(PrefixRange("").limit) == ""
    ensures PrefixSuccessor("\U{FF}") == None && SentinelOf(PrefixRange("\U{FF}").limit) == ""
    ensures PrefixSuccessor("x\U{FF}") == Some("y") && SentinelOf(PrefixRange("x\U{FF}").limit) == "y"
    ensures PrefixSuccessor("\U{FE}") == Some("\U{FF}") && SentinelOf(PrefixRange("\U{FE}").limit) == "\U{FF}"
  {
    var ff: Bytes := "\U{FF}";
    assert AllMax(ff);
    var xff: Bytes := "x\U{FF}";
    assert LastNonMax(xff[..1]) == Some(0);
    assert LastNonMax(xff) == Some(0);
    assert xff[..0] == [];
    var fe: Bytes := "\U{FE}";
    assert LastNonMax(fe) == Some(0);
    assert fe[..0] == [];
  }

  /** The keys of `keys` that `r` selects, in order. */
  function Select(r: RowRange, keys: seq<Bytes>): seq<Bytes>
  {
    if |keys| == 0 then []
    else Pick(r, keys[0]) + Select(r, keys[1..])
  }

  /** A scan of `r` over `keys` yields exactly the keys `r` contains. */
  lemma {:induction false} SelectMembers(r: RowRange, keys: seq<Bytes>, k: Bytes)
    ensures k in Select(r, keys) <==> k in keys && Contains(r, k)
  {
    if |keys| > 0 {
      SelectMembers(r, keys[1..], k);
      assert keys == [keys[0]] + keys[1..];
    }
  }

  function Pick(r: RowRange, k: Bytes): seq<Bytes>
  {
    if Contains(r, k) then [k] else []
  }

  /** The row keys the integration test writes. */
  const TestKeys: seq<Bytes> := ["gwashington", "jadams", "tjefferson", "wmckinley"]

  lemma SelectCons(r: RowRange, k: Bytes, rest: seq<Bytes>)
    ensures Select(r, [k] + rest) == Pick(r, k) + Select(r, rest)
  {
    assert ([k] + rest)[1..] == rest;
  }

  lemma SelectFour(r: RowRange, a: Bytes, b: Bytes, c: Bytes, d: Bytes)
    ensures Select(r, [a, b, c, d]) == Pick(r, a) + (Pick(r, b) + (Pick(r, c) + Pick(r, d)))
  {
    var nil: seq<Bytes> := [];
    SelectCons(r, d, nil);
    SelectCons(r, c, [d]);
    SelectCons(r, b, [c, d]);
    SelectCons(r, a, [b, c, d]);
    assert [d] + nil == [d];
    assert [c] + [d] == [c, d];
    assert [b] + [c, d] == [b, c, d];
    assert [a] + [b, c, d] == [a, b, c, d];
    assert Pick(r, d) + Select(r, nil) == Pick(r, d);
  }

  /** Keys whose first bytes differ are ordered by those bytes. */
  lemma FirstByteBefore(a: Bytes, b: Bytes)
    requires |a| > 0 && |b| > 0 && a[0] < b[0]
    ensures Less(a, b) && !LessEq(b, a)
  {
    assert a != b;
  }

  /** The read-all test: the zero range selects every key. */
  lemma ReadAllCase()
    ensures Select(AllRows, TestKeys) == TestKeys
  {
    var g, j, t, w: Bytes := "gwashington", "jadams", "tjefferson", "wmckinley";
    AllRowsContains(g);
    AllRowsContains(j);
    AllRowsContains(t);
    AllRowsContains(w);
    SelectFour(AllRows, g, j, t, w);
  }

  /** InfiniteRange("tjefferson") includes its start key and every greater key. */
  lemma InfiniteRangeCase()
    ensures Select(InfiniteRange("tjefferson"), TestKeys) == ["tjefferson", "wmckinley"]
  {
    var g, j, t, w: Bytes := "gwashington", "jadams", "tjefferson", "wmckinley";
    var r := InfiniteRange(t);
    FirstByteBefore(g, t);
    FirstByteBefore(j, t);
    FirstByteBefore(t, w);
    assert !Contains(r, g) && !Contains(r, j) && Contains(r, t) && Contains(r, w);
    SelectFour(r, g, j, t, w);
  }

  /** NewRange("gargamel", "hubbard") selects only "gwashington". */
  lemma NewRangeCase()
    ensures Select(NewRange("gargamel", "hubbard"), TestKeys) == ["gwashington"]
  {
    var g, j, t, w: Bytes := "gwashington", "jadams", "tjefferson", "wmckinley";
    var lo, hi: Bytes := "gargamel", "hubbard";
    var r := NewRange(lo, hi);
    assert Contains(r, g) by {
      assert DiffersAt(lo, g, 1);
      LessAtDifference(lo, g, 1);
      FirstByteBefore(g, hi);
    }
    assert !Contains(r, j) by { FirstByteBefore(hi, j); }
    assert !Contains(r, t) by { FirstByteBefore(hi, t); }
    assert !Contains(r, w) by { FirstByteBefore(hi, w); }
    SelectFour(r, g, j, t, w);
  }

  /** A prefix scan over four keys of which only the second starts with `p`. */
  lemma PrefixSelectsSecond(p: Bytes, g: Bytes, j: Bytes, t: Bytes, w: Bytes)
    requires IsPrefix(p, j) && !IsPrefix(p, g) && !IsPrefix(p, t) && !IsPrefix(p, w)
    ensures Select(PrefixRange(p), [g, j, t, w]) == [j]
  {
    PrefixRangeContains(p, g);
    PrefixRangeContains(p, j);
    PrefixRangeContains(p, t);
    PrefixRangeContains(p, w);
    SelectFour(PrefixRange(p), g, j, t, w);
  }

  /** PrefixRange("jad") selects exactly the keys starting with "jad". */
  lemma PrefixRangeCase()
    ensures Select(PrefixRange("jad"), TestKeys) == ["jadams"]
  {
    var g, j, t, w: Bytes := "gwashington", "jadams", "tjefferson", "wmckinley";
    var jad: Bytes := "jad";
    assert j[..3] == jad;
    assert g[..3][0] != jad[0] && t[..3][0] != jad[0] && w[..3][0] != jad[0];
    PrefixSelectsSecond(jad, g, j, t, w);
  }

  /** SingleRow("wmckinley") selects exactly that key. */
  lemma SingleRowCase()
    ensures Select(SingleRow("wmckinley"), TestKeys) == ["wmckinley"]
  {
    var g, j, t, w: Bytes := "gwashington", "jadams", "tjefferson", "wmckinley";
    SingleRowContains(w, g);
    SingleRowContains(w, j);
    SingleRowContains(w, t);
    SingleRowContains(w, w);
    SelectFour(SingleRow(w), g, j, t, w);
  }
}
