/**
 * `cbt set <table> <row> family:[column]=val[@ts] ...`: how each cell
 * argument is matched, how an optional timestamp is split off its value,
 * and the cells the resulting mutation writes. Applying the mutation is
 * left to the server.
 */
module CbtSet {
  import opened Wrappers
  import opened Text
  import opened Numbers
  import opened Seqs

  /** The three submatches of the cell pattern `([^:]+):([^=]*)=(.*)`. */
  datatype SetArg = SetArg(family: Bytes, column: Bytes, value: Bytes)

  /** One cell of the mutation. */
  datatype SetCell = SetCell(family: Bytes, column: Bytes, timestamp: Int64, value: Bytes)

  datatype SetError = SetUsage | BadSetArg(arg: Bytes)

  datatype SetPlan = SetPlan(table: Bytes, row: Bytes, cells: seq<SetCell>)

  predicate AllColons(s: Bytes)
  {
    forall i :: 0 <= i < |s| ==> s[i] == ':'
  }

  /** `(.*)`: the text up to the first newline. */
  function LineOf(tail: Bytes): (r: Bytes)
    ensures |r| <= |tail| && '\n' !in r && r == tail[..|r|]
    ensures |r| == |tail| || tail[|r|] == '\n'
  {
    match IndexOf(tail, '\n')
    case None => tail
    case Some(j) => tail[..j]
  }

  /** `([^=]*)=(.*)` after the family's ':'. */
  function MatchColumn(family: Bytes, after: Bytes): (r: Option<SetArg>)
    ensures r.Some? <==> '=' in after
    ensures r.Some? ==>
      var column := r.value.column;
      && r.value.family == family
      && '=' !in column && |column| < |after| && after[..|column|] == column && after[|column|] == '='
      && r.value.value == LineOf(after[|column| + 1..])
  {
    match IndexOf(after, '=')
    case None => None
    case Some(e) => Some(SetArg(family, after[..e], LineOf(after[e + 1..])))
  }

  /** The number of ':' bytes `arg` starts with. */
  function LeadingColons(arg: Bytes): (n: nat)
    ensures n <= |arg| && AllColons(arg[..n])
    ensures n == |arg| || arg[n] != ':'
  {
    if |arg| > 0 && arg[0] == ':' then 1 + LeadingColons(arg[1..]) else 0
  }

  /** The pattern from its first byte on: `([^:]+)` runs to the next ':'. */
  function MatchFrom(rest: Bytes): (r: Option<SetArg>)
    ensures r.Some? ==>
      var family := r.value.family;
      && ':' !in family && |family| < |rest| && rest[..|family|] == family && rest[|family|] == ':'
      && MatchColumn(family, rest[|family| + 1..]) == r
  {
    match IndexOf(rest, ':')
    case None => None
    case Some(c) => MatchColumn(rest[..c], rest[c + 1..])
  }

  /**
   * The pattern is not anchored: a match may start anywhere, and Go takes
   * the leftmost. `[^:]+` cannot start on a ':', so leading colons are
   * skipped and the match starts at the first other byte; the family runs
   * to the next ':', the column to the first '=' after it, and `.` stops
   * at a newline, so the value does too.
   */
  function MatchSetArg(arg: Bytes): (r: Option<SetArg>)
    ensures r.Some? ==>
      && |r.value.family| > 0 && ':' !in r.value.family
      && '=' !in r.value.column
      && '\n' !in r.value.value
    decreases |arg|
  {
    if |arg| > 0 && arg[0] == ':' then MatchSetArg(arg[1..]) else MatchFrom(arg)
  }

  /** Reference definition: somewhere a non-':' byte, later a ':', later an '='. */
  predicate HasMatch(arg: Bytes)
  {
    exists i, j, k :: 0 <= i < j < k < |arg| && arg[i] != ':' && arg[j] == ':' && arg[k] == '='
  }

  /** From its first byte on, the pattern needs a ':' and, later, an '='. */
  lemma MatchFromWitness(rest: Bytes, j: nat, k: nat)
    requires j < k < |rest| && rest[j] == ':' && rest[k] == '='
    ensures MatchFrom(rest).Some?
  {
    var c := IndexOf(rest, ':').value;
    assert c <= j;
    var after := rest[c + 1..];
    assert after[k - c - 1] == '=';
  }

  lemma MatchFromIff(rest: Bytes)
    ensures MatchFrom(rest).Some? <==> exists j, k :: 0 <= j < k < |rest| && rest[j] == ':' && rest[k] == '='
  {
    if MatchFrom(rest).Some? {
      var c := IndexOf(rest, ':').value;
      var e := IndexOf(rest[c + 1..], '=').value;
      assert rest[c] == ':' && rest[c + 1 + e] == '=';
    }
    if exists j, k :: 0 <= j < k < |rest| && rest[j] == ':' && rest[k] == '=' {
      var j, k :| 0 <= j < k < |rest| && rest[j] == ':' && rest[k] == '=';
      MatchFromWitness(rest, j, k);
    }
  }

  /** A leading ':' can start no match, so dropping it changes nothing. */
  lemma HasMatchAfterColon(arg: Bytes)
    requires |arg| > 0 && arg[0] == ':'
    ensures HasMatch(arg) <==> HasMatch(arg[1..])
  {
    var tail := arg[1..];
    if HasMatch(arg) {
      var i, j, k :| 0 <= i < j < k < |arg| && arg[i] != ':' && arg[j] == ':' && arg[k] == '=';
      assert tail[i - 1] != ':' && tail[j - 1] == ':' && tail[k - 1] == '=';
    }
    if HasMatch(tail) {
      var i, j, k :| 0 <= i < j < k < |tail| && tail[i] != ':' && tail[j] == ':' && tail[k] == '=';
      assert arg[i + 1] != ':' && arg[j + 1] == ':' && arg[k + 1] == '=';
    }
  }

  /** Starting on a byte other than ':', the match may start right there. */
  lemma HasMatchFromStart(arg: Bytes)
    requires |arg| > 0 && arg[0] != ':'
    ensures HasMatch(arg) <==> exists j, k :: 0 <= j < k < |arg| && arg[j] == ':' && arg[k] == '='
  {
    if exists j, k :: 0 <= j < k < |arg| && arg[j] == ':' && arg[k] == '=' {
      var j, k :| 0 <= j < k < |arg| && arg[j] == ':' && arg[k] == '=';
      assert 0 < j;
      assert arg[0] != ':';
    }
  }

  /** The pattern matches exactly the arguments `HasMatch` describes. */
  lemma {:induction false} MatchSetArgIff(arg: Bytes)
    ensures MatchSetArg(arg).Some? <==> HasMatch(arg)
    decreases |arg|
  {
    if |arg| > 0 && arg[0] == ':' {
      MatchSetArgIff(arg[1..]);
      HasMatchAfterColon(arg);
    } else if |arg| > 0 {
      MatchFromIff(arg);
      HasMatchFromStart(arg);
    } else {
      MatchFromIff(arg);
    }
  }

  /** The match is the pattern's match from the first byte that is not a ':'. */
  lemma {:induction false} MatchSetArgFrom(arg: Bytes)
    ensures MatchSetArg(arg) == MatchFrom(arg[LeadingColons(arg)..])
    decreases |arg|
  {
    if |arg| > 0 && arg[0] == ':' {
      MatchSetArgFrom(arg[1..]);
      assert arg[1..][LeadingColons(arg[1..])..] == arg[LeadingColons(arg)..];
    }
  }

  /** Leading colons are skipped. */
  lemma {:induction false} MatchSetArgSkips(pre: Bytes, rest: Bytes)
    requires AllColons(pre) && (|rest| == 0 || rest[0] != ':')
    ensures MatchSetArg(pre + rest) == MatchFrom(rest)
    decreases |pre|
  {
    if |pre| == 0 {
      assert pre + rest == rest;
    } else {
      assert (pre + rest)[0] == ':';
      assert (pre + rest)[1..] == pre[1..] + rest;
      MatchSetArgSkips(pre[1..], rest);
    }
  }

  lemma LineOfValue(v: Bytes, post: Bytes)
    requires '\n' !in v
    requires post == [] || post[0] == '\n'
    ensures LineOf(v + post) == v
  {
    if post == [] {
      assert v + post == v;
    } else {
      IndexOfAt(v + post, '\n', |v|);
    }
  }

  lemma MatchColumnOf(family: Bytes, column: Bytes, tail: Bytes)
    requires '=' !in column
    ensures MatchColumn(family, column + "=" + tail) == Some(SetArg(family, column, LineOf(tail)))
  {
    var after := column + "=" + tail;
    assert after[..|column|] == column;
    IndexOfAt(after, '=', |column|);
    assert after[|column| + 1..] == tail;
  }

  lemma MatchFromOf(family: Bytes, after: Bytes)
    requires ':' !in family
    ensures MatchFrom(family + ":" + after) == MatchColumn(family, after)
  {
    var rest := family + ":" + after;
    assert rest[..|family|] == family;
    IndexOfAt(rest, ':', |family|);
    assert rest[|family| + 1..] == after;
  }

  lemma ArgShape(pre: Bytes, family: Bytes, column: Bytes, value: Bytes, post: Bytes)
    ensures pre + family + ":" + column + "=" + value + post == pre + (family + ":" + (column + "=" + (value + post)))
  {
    var after := column + "=" + (value + post);
    assert column + "=" + value + post == after;
    assert family + ":" + column + "=" + value + post == family + ":" + after;
  }

  lemma MatchFromParts(family: Bytes, column: Bytes, tail: Bytes)
    requires ':' !in family && '=' !in column
    ensures MatchFrom(family + ":" + (column + "=" + tail)) == Some(SetArg(family, column, LineOf(tail)))
  {
    MatchFromOf(family, column + "=" + tail);
    MatchColumnOf(family, column, tail);
  }

  /**
   * Writing `family:column=value` and matching it gives the three parts
   * back, even behind leading colons and before a newline and whatever
   * follows it.
   */
  lemma MatchSetArgOf(pre: Bytes, family: Bytes, column: Bytes, value: Bytes, post: Bytes)
    requires AllColons(pre)
    requires |family| > 0 && ':' !in family && '=' !in column && '\n' !in value
    requires post == [] || post[0] == '\n'
    ensures MatchSetArg(pre + family + ":" + column + "=" + value + post) == Some(SetArg(family, column, value))
  {
    var tail := value + post;
    var after := column + "=" + tail;
    var rest := family + ":" + after;
    assert family[0] != ':';
    assert rest[0] == family[0];
    MatchSetArgSkips(pre, rest);
    MatchFromParts(family, column, tail);
    LineOfValue(value, post);
    ArgShape(pre, family, column, value, post);
  }

  lemma MatchSetArgRoundTrip(family: Bytes, column: Bytes, value: Bytes)
    requires |family| > 0 && ':' !in family && '=' !in column && '\n' !in value
    ensures MatchSetArg(family + ":" + column + "=" + value) == Some(SetArg(family, column, value))
  {
    var rest := family + ":" + (column + "=" + value);
    assert family + ":" + column + "=" + value == rest;
    assert rest[0] == family[0] && [] + rest == rest;
    MatchSetArgSkips([], rest);
    MatchFromParts(family, column, value);
    assert LineOf(value) == value by {
      LineOfValue(value, []);
      assert value + [] == value;
    }
  }

  // ---------------------------------------------------------------------
  // The optional `@ts` suffix of a value.
  // ---------------------------------------------------------------------

  /**
   * Splits `val` at its last '@' when what follows parses as an int64 in
   * `strconv.ParseInt(_, 0, 64)` syntax; otherwise the value is kept whole
   * and stamped `now`.
   */
  function SplitTimestamp(val: Bytes, now: Int64): (r: (Bytes, Int64))
    ensures r.0 != val <==> '@' in val && ParseInt64(val[LastIndexOf(val, '@').value + 1..]).Some?
    ensures r.0 == val ==> r.1 == now
    ensures r.0 != val ==>
      && |r.0| < |val| && val[..|r.0|] == r.0 && val[|r.0|] == '@'
      && '@' !in val[|r.0| + 1..]
      && ParseInt64(val[|r.0| + 1..]) == Some(r.1)
  {
    match LastIndexOf(val, '@')
    case None => (val, now)
    case Some(i) =>
      match ParseInt64(val[i + 1..])
      case None => (val, now)
      case Some(n) => (val[..i], n)
  }

  lemma FormatIntHasNoAt(n: int)
    ensures '@' !in FormatInt(n)
  {
    var s := FormatInt(n);
    if n < 0 {
      assert forall i :: 1 <= i < |s| ==> s[i] == NatDigits(-n)[i - 1];
    }
  }

  /**
   * A value `v@s` whose suffix `s` has no '@' and parses, in any base
   * `strconv.ParseInt` accepts, splits into `v` and that number.
   */
  lemma SplitTimestampAt(v: Bytes, s: Bytes, n: Int64, now: Int64)
    requires '@' !in s && ParseInt64(s) == Some(n)
    ensures SplitTimestamp(v + "@" + s, now) == (v, n)
  {
    var val := v + "@" + s;
    assert val[|v| + 1..] == s;
    LastIndexOfAt(val, '@', |v|);
    assert val[..|v|] == v;
  }

  /** A value written as `v@n` splits back into `v` and `n`, whatever `v` holds. */
  lemma SplitTimestampRoundTrip(v: Bytes, n: Int64, now: Int64)
    ensures SplitTimestamp(v + "@" + FormatInt(n), now) == (v, n)
  {
    FormatIntHasNoAt(n);
    ParseFormatInt(n);
    SplitTimestampAt(v, FormatInt(n), n, now);
  }

  /** A value whose text after its last '@' is not a number keeps the '@'. */
  lemma SplitTimestampKeeps(val: Bytes, now: Int64)
    requires '@' !in val || ParseInt64(val[LastIndexOf(val, '@').value + 1..]).None?
    ensures SplitTimestamp(val, now) == (val, now)
  {
  }

  // ---------------------------------------------------------------------
  // The command.
  // ---------------------------------------------------------------------

  function CellOf(m: SetArg, now: Int64): SetCell
  {
    var (v, ts) := SplitTimestamp(m.value, now);
    SetCell(m.family, m.column, ts, v)
  }

  /**
   * The cells of the cell arguments `args`; `clock(i)` is the time read
   * while handling argument `i`. The first argument the pattern does not
   * match is fatal.
   */
  function SetCells(args: seq<Bytes>, clock: nat -> Int64): (r: Result<seq<SetCell>, SetError>)
    ensures r.Ok? ==> |r.value| == |args|
  {
    match ParseAll(args, MatchSetArg)
    case Err(a) => Err(BadSetArg(a))
    case Ok(ms) => Ok(CellsOf(ms, clock))
  }

  /** The matched arguments `ms` as cells, argument `i` stamped with `clock(i)`. */
  function CellsOf(ms: seq<SetArg>, clock: nat -> Int64): (r: seq<SetCell>)
    ensures |r| == |ms|
    ensures forall i :: 0 <= i < |ms| ==> r[i] == CellOf(ms[i], clock(i))
  {
    seq(|ms|, i requires 0 <= i < |ms| => CellOf(ms[i], clock(i)))
  }

  /**
   * `SetCells` succeeds exactly when the pattern matches every argument,
   * reports the first argument it does not match otherwise, and turns
   * argument `i` into `CellOf` its match stamped with `clock(i)`.
   */
  lemma SetCellsSpec(args: seq<Bytes>, clock: nat -> Int64)
    ensures SetCells(args, clock).Ok? <==> forall i :: 0 <= i < |args| ==> MatchSetArg(args[i]).Some?
    ensures SetCells(args, clock).Err? ==>
      exists i :: 0 <= i < |args| && SetCells(args, clock).error == BadSetArg(args[i]) &&
        MatchSetArg(args[i]).None? && forall j :: 0 <= j < i ==> MatchSetArg(args[j]).Some?
    ensures SetCells(args, clock).Ok? ==> forall i :: 0 <= i < |args| ==>
      MatchSetArg(args[i]).Some? && SetCells(args, clock).value[i] == CellOf(MatchSetArg(args[i]).value, clock(i))
  {
    ParseAllFails(args, MatchSetArg);
    if ParseAll(args, MatchSetArg).Ok? {
      forall i | 0 <= i < |args|
        ensures MatchSetArg(args[i]) == Some(ParseAll(args, MatchSetArg).value[i])
      {
        ParseAllValues(args, MatchSetArg, i);
      }
    }
  }

  /** `doSet`: a table, a row key and at least one cell argument. */
  function DoSet(args: seq<Bytes>, clock: nat -> Int64): (r: Result<SetPlan, SetError>)
    ensures |args| < 3 ==> r == Err(SetUsage)
    ensures r.Ok? ==> r.value.table == args[0] && r.value.row == args[1] && |r.value.cells| == |args| - 2
    ensures r.Err? && |args| >= 3 ==> r.error.BadSetArg?
  {
    if |args| < 3 then Err(SetUsage)
    else
      var cells :- SetCells(args[2..], clock);
      Ok(SetPlan(args[0], args[1], cells))
  }

  /**
   * With a table and row, `doSet` succeeds exactly when every cell argument
   * matches, and cell argument `i` is written as `CellOf` its match.
   */
  lemma DoSetCells(args: seq<Bytes>, clock: nat -> Int64, i: nat)
    requires 2 <= i < |args|
    ensures DoSet(args, clock).Ok? <==> SetCells(args[2..], clock).Ok?
    ensures DoSet(args, clock).Ok? ==>
      MatchSetArg(args[i]).Some? && DoSet(args, clock).value.cells[i - 2] == CellOf(MatchSetArg(args[i]).value, clock(i - 2))
  {
    var rest := args[2..];
    assert rest[i - 2] == args[i];
    SetCellsSpec(rest, clock);
  }

  lemma StampCase(now: Int64)
    ensures SplitTimestamp("val@17", now) == ("val", 17)
  {
    var v: Bytes := "val@17";
    ParseInt64Cases();
    assert v[4..] == "17";
    assert '@' !in v[4..];
    LastIndexOfAt(v, '@', 3);
    assert v[..3] == "val";
  }

  /** Hexadecimal and octal stamps are read too ... */
  lemma StampBaseCases(now: Int64)
    ensures SplitTimestamp("v@0x11", now) == ("v", 17)
    ensures SplitTimestamp("v@021", now) == ("v", 17)
  {
    ParseInt64Cases();
    var h: Bytes := "v@0x11";
    assert h[2..] == "0x11" && '@' !in h[2..] && h[..1] == "v";
    LastIndexOfAt(h, '@', 1);
    var o: Bytes := "v@021";
    assert o[2..] == "021" && '@' !in o[2..] && o[..1] == "v";
    LastIndexOfAt(o, '@', 1);
  }

  /** ... but a malformed octal stamp stays part of the value. */
  lemma StampBadOctalCase(now: Int64)
    ensures SplitTimestamp("v@08", now) == ("v@08", now)
  {
    ParseInt64Cases();
    var k: Bytes := "v@08";
    assert k[2..] == "08" && '@' !in k[2..];
    LastIndexOfAt(k, '@', 1);
  }

  lemma MatchCase()
    ensures MatchSetArg("fam:col=val@17") == Some(SetArg("fam", "col", "val@17"))
  {
    var a: Bytes := "fam:col=val@17";
    assert a == "fam" + ":" + "col" + "=" + "val@17";
    MatchSetArgRoundTrip("fam", "col", "val@17");
  }

  lemma SetCellsOne(arg: Bytes, m: SetArg, clock: nat -> Int64)
    requires MatchSetArg(arg) == Some(m)
    ensures SetCells([arg], clock) == Ok([CellOf(m, clock(0))])
  {
    assert ParseAll([arg], MatchSetArg) == Ok([m]) by {
      ParseAllSingle(arg, MatchSetArg);
    }
    assert CellsOf([m], clock) == [CellOf(m, clock(0))];
  }

  lemma CellCase(now: Int64)
    ensures CellOf(SetArg("fam", "col", "val@17"), now) == SetCell("fam", "col", 17, "val")
  {
    StampCase(now);
  }

  lemma CellsCase(clock: nat -> Int64)
    ensures SetCells(["fam:col=val@17"], clock) == Ok([SetCell("fam", "col", 17, "val")])
  {
    var a: Bytes := "fam:col=val@17";
    var m := SetArg("fam", "col", "val@17");
    var cell := SetCell("fam", "col", 17, "val");
    MatchCase();
    CellCase(clock(0));
    SetCellsOne(a, m, clock);
    assert [CellOf(m, clock(0))] == [cell];
  }

  /** `cbt set t r fam:col=val@17` writes one cell stamped 17. */
  lemma DoSetCase(clock: nat -> Int64)
    ensures DoSet(["t", "r", "fam:col=val@17"], clock) == Ok(SetPlan("t", "r", [SetCell("fam", "col", 17, "val")]))
  {
    var t: Bytes := "t";
    var r: Bytes := "r";
    var a: Bytes := "fam:col=val@17";
    var args := [t, r, a];
    assert args[2..] == [a];
    CellsCase(clock);
  }
}
