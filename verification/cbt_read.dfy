/**
 * `cbt read <table> [start=<row>] [limit=<row>] [prefix=<prefix>]`: the
 * argument parsing and the choice of row range. Opening the table and
 * streaming its rows are left to the client model.
 */
module CbtRead {
  import opened Wrappers
  import opened Text
  import opened RowRanges
  import opened Seqs

  /** A `key=value` argument split at its first '='. */
  datatype Arg = Arg(key: Bytes, value: Bytes)

  /**
   * The parsed arguments; Go keeps them in a map whose missing entries read
   * as "", so an absent key and an empty value are the same here.
   */
  datatype ReadArgs = ReadArgs(start: Bytes, limit: Bytes, prefix: Bytes)

  const NoArgs: ReadArgs := ReadArgs([], [], [])

  /** The keys `doRead` knows. */
  datatype Key = Start | Limit | Prefix

  function Name(k: Key): Bytes
  {
    match k
    case Start => "start"
    case Limit => "limit"
    case Prefix => "prefix"
  }

  /** The key an argument names, if `doRead` knows it. */
  function KeyOf(s: Bytes): (r: Option<Key>)
    ensures r.Some? ==> Name(r.value) == s
    ensures r.None? ==> forall k: Key :: Name(k) != s
  {
    if s == "start" then Some(Start)
    else if s == "limit" then Some(Limit)
    else if s == "prefix" then Some(Prefix)
    else None
  }

  datatype ReadError = ReadUsage | BadArg(arg: Bytes) | UnknownArgKey(key: Bytes) | MixedPrefix

  datatype ReadPlan = ReadPlan(table: Bytes, range: RowRange)

  function SplitArg(arg: Bytes): (r: Option<Arg>)
    ensures r.None? <==> '=' !in arg
    ensures r.Some? ==> arg == r.value.key + "=" + r.value.value && '=' !in r.value.key
  {
    match IndexOf(arg, '=')
    case None => None
    case Some(i) =>
      assert arg == arg[..i] + "=" + arg[i + 1..];
      Some(Arg(arg[..i], arg[i + 1..]))
  }

  function Value(p: ReadArgs, k: Key): Bytes
  {
    match k
    case Start => p.start
    case Limit => p.limit
    case Prefix => p.prefix
  }

  /** `p` with the entry for `k` set to `v`. */
  function Update(p: ReadArgs, k: Key, v: Bytes): ReadArgs
  {
    match k
    case Start => p.(start := v)
    case Limit => p.(limit := v)
    case Prefix => p.(prefix := v)
  }

  /** An argument `doRead` accepts. */
  predicate WellFormed(arg: Bytes)
  {
    SplitArg(arg).Some? && KeyOf(SplitArg(arg).value.key).Some?
  }

  /** One argument: the named entry takes the value and nothing else changes. */
  function ParseArg(p: ReadArgs, arg: Bytes): (r: Result<ReadArgs, ReadError>)
    ensures r.Ok? <==> WellFormed(arg)
    ensures '=' !in arg ==> r == Err(BadArg(arg))
    ensures SplitArg(arg).Some? && KeyOf(SplitArg(arg).value.key).None? ==>
      r == Err(UnknownArgKey(SplitArg(arg).value.key))
    ensures r.Ok? ==>
      var a := SplitArg(arg).value;
      && Value(r.value, KeyOf(a.key).value) == a.value
      && forall k: Key :: Name(k) != a.key ==> Value(r.value, k) == Value(p, k)
  {
    match SplitArg(arg)
    case None => Err(BadArg(arg))
    case Some(Arg(key, val)) =>
      match KeyOf(key)
      case None => Err(UnknownArgKey(key))
      case Some(k) => Ok(Update(p, k, val))
  }

  /** Splitting undoes writing `key=value`, for a key without '='. */
  lemma ArgRoundTrip(key: Bytes, value: Bytes)
    requires '=' !in key
    ensures SplitArg(key + "=" + value) == Some(Arg(key, value))
  {
    var arg := key + "=" + value;
    assert arg[..|key|] == key;
    IndexOfAt(arg, '=', |key|);
    assert arg[|key| + 1..] == value;
  }

  /**
   * The arguments left to right; the first bad one is fatal. Written as a
   * left fold, so the last argument is the last one applied.
   */
  function ParseArgs(p: ReadArgs, args: seq<Bytes>): (r: Result<ReadArgs, ReadError>)
    ensures r.Err? ==> r.error.BadArg? || r.error.UnknownArgKey?
    decreases |args|
  {
    if |args| == 0 then Ok(p)
    else
      var q :- ParseArgs(p, args[..|args| - 1]);
      ParseArg(q, args[|args| - 1])
  }

  /** Reference definition: the value of the last argument naming `key`, else `dflt`. */
  function LastValue(args: seq<Bytes>, key: Key, dflt: Bytes): Bytes
  {
    if |args| == 0 then dflt
    else
      var a := SplitArg(args[|args| - 1]);
      if a.Some? && a.value.key == Name(key) then a.value.value
      else LastValue(args[..|args| - 1], key, dflt)
  }

  /** The range `doRead` scans: prefix if given, else start/limit, else every row. */
  function SelectRange(p: ReadArgs): RowRange
  {
    var rr :=
      if p.limit != [] then NewRange(p.start, p.limit)
      else if p.start != [] then InfiniteRange(p.start)
      else AllRows;
    if p.prefix != [] then PrefixRange(p.prefix) else rr
  }

  /** A non-empty start or limit together with a non-empty prefix, which `doRead` refuses. */
  predicate Mixed(p: ReadArgs)
  {
    (p.start != [] || p.limit != []) && p.prefix != []
  }

  /**
   * `doRead`: the table, then the arguments; the first bad argument is
   * reported as it is, and a prefix mixed with start or limit is refused.
   */
  function DoRead(args: seq<Bytes>): (r: Result<ReadPlan, ReadError>)
    ensures |args| == 0 ==> r == Err(ReadUsage)
    ensures |args| > 0 && ParseArgs(NoArgs, args[1..]).Err? ==> r == Err(ParseArgs(NoArgs, args[1..]).error)
    ensures r == Err(MixedPrefix) <==>
      |args| > 0 && ParseArgs(NoArgs, args[1..]).Ok? && Mixed(ParseArgs(NoArgs, args[1..]).value)
    ensures r.Ok? <==>
      |args| > 0 && ParseArgs(NoArgs, args[1..]).Ok? && !Mixed(ParseArgs(NoArgs, args[1..]).value)
    ensures r.Ok? ==>
      r.value == ReadPlan(args[0], SelectRange(ParseArgs(NoArgs, args[1..]).value))
  {
    if |args| == 0 then Err(ReadUsage)
    else
      var p :- ParseArgs(NoArgs, args[1..]);
      if Mixed(p) then Err(MixedPrefix)
      else Ok(ReadPlan(args[0], SelectRange(p)))
  }

  // ---------------------------------------------------------------------
  // Properties.
  // ---------------------------------------------------------------------

  lemma {:induction false} ParseArgsAll(p: ReadArgs, args: seq<Bytes>)
    ensures ParseArgs(p, args).Ok? <==> All(args, WellFormed)
    decreases |args|
  {
    if |args| > 0 {
      ParseArgsAll(p, args[..|args| - 1]);
    }
  }

  /** Parsing succeeds exactly when every argument is `key=value` with a known key. */
  lemma ParseArgsOk(p: ReadArgs, args: seq<Bytes>)
    ensures ParseArgs(p, args).Ok? <==> forall i :: 0 <= i < |args| ==> WellFormed(args[i])
  {
    ParseArgsAll(p, args);
    AllIff(args, WellFormed);
  }

  /** The last occurrence of a key wins, and an absent key keeps its earlier value. */
  lemma {:induction false} ParseArgsLastWins(p: ReadArgs, args: seq<Bytes>, key: Key)
    requires ParseArgs(p, args).Ok?
    ensures Value(ParseArgs(p, args).value, key) == LastValue(args, key, Value(p, key))
    decreases |args|
  {
    if |args| > 0 {
      var init := args[..|args| - 1];
      ParseArgsLastWins(p, init, key);
    }
  }

  /** The rows the selected range holds, in terms of the parsed values. */
  lemma SelectRangeContains(p: ReadArgs, x: Bytes)
    ensures Contains(SelectRange(p), x) <==>
      if p.prefix != [] then IsPrefix(p.prefix, x)
      else LessEq(p.start, x) && (p.limit == [] || Less(x, p.limit))
  {
    if p.prefix != [] {
      PrefixRangeContains(p.prefix, x);
    } else if p.limit != [] {
      NewRangeContains(p.start, p.limit, x);
    } else if p.start != [] {
      InfiniteRangeContains(p.start, x);
    } else {
      AllRowsContains(x);
      assert LessEq([], x) by {
        if x != [] {
          LessOfProperPrefix([], x);
        }
      }
    }
  }

  /**
   * What `cbt read` scans, in terms of its command line: the rows with the
   * last `prefix=` value as a prefix, or else the rows from the last
   * `start=` value up to (not including) the last `limit=` value, an empty
   * value leaving that side open.
   */
  lemma DoReadScans(args: seq<Bytes>, x: Bytes)
    requires DoRead(args).Ok?
    ensures var rest := args[1..];
      var start := LastValue(rest, Start, []);
      var limit := LastValue(rest, Limit, []);
      var prefix := LastValue(rest, Prefix, []);
      && (prefix == [] || (start == [] && limit == []))
      && (Contains(DoRead(args).value.range, x) <==>
          if prefix != [] then IsPrefix(prefix, x)
          else LessEq(start, x) && (limit == [] || Less(x, limit)))
  {
    var p := ParseArgs(NoArgs, args[1..]).value;
    ParseArgsLastWins(NoArgs, args[1..], Start);
    ParseArgsLastWins(NoArgs, args[1..], Limit);
    ParseArgsLastWins(NoArgs, args[1..], Prefix);
    SelectRangeContains(p, x);
  }

  /** `key=value` for a known key sets that entry. */
  lemma ParseArgOf(p: ReadArgs, key: Key, value: Bytes)
    ensures ParseArg(p, Name(key) + "=" + value) == Ok(Update(p, key, value))
  {
    assert '=' !in Name(key);
    ArgRoundTrip(Name(key), value);
  }

  lemma ParseArgsStep(p: ReadArgs, args: seq<Bytes>, arg: Bytes, q: ReadArgs)
    requires ParseArgs(p, args) == Ok(q)
    ensures ParseArgs(p, args + [arg]) == ParseArg(q, arg)
  {
    assert (args + [arg])[..|args|] == args;
  }

  /** `cbt read t k=v` for one known key scans the range that one value selects. */
  lemma DoReadOne(t: Bytes, k: Key, v: Bytes)
    ensures DoRead([t, Name(k) + "=" + v]) == Ok(ReadPlan(t, SelectRange(Update(NoArgs, k, v))))
  {
    var a := Name(k) + "=" + v;
    var args := [t, a];
    var one := [a];
    assert args[1..] == one && one[..0] == [] && one[0] == a;
    assert ParseArgs(NoArgs, one[..0]) == Ok(NoArgs);
    ParseArgOf(NoArgs, k, v);
    assert ParseArgs(NoArgs, one) == Ok(Update(NoArgs, k, v));
  }

  /** Two arguments apply their settings in order. */
  lemma ParseTwo(a: Bytes, b: Bytes, p1: ReadArgs, p2: ReadArgs)
    requires ParseArg(NoArgs, a) == Ok(p1) && ParseArg(p1, b) == Ok(p2)
    ensures ParseArgs(NoArgs, [a, b]) == Ok(p2)
  {
    var nil: seq<Bytes> := [];
    ParseArgsStep(NoArgs, nil, a, NoArgs);
    assert nil + [a] == [a];
    ParseArgsStep(NoArgs, [a], b, p1);
    assert [a] + [b] == [a, b];
  }

  /**
   * `cbt read t a b`: `a` is applied first and `b` to its outcome, and the
   * range is chosen from what both leave.
   */
  lemma DoReadTwo(t: Bytes, a: Bytes, b: Bytes, p1: ReadArgs, p2: ReadArgs)
    requires ParseArg(NoArgs, a) == Ok(p1) && ParseArg(p1, b) == Ok(p2)
    ensures Mixed(p2) ==> DoRead([t, a, b]) == Err(MixedPrefix)
    ensures !Mixed(p2) ==> DoRead([t, a, b]) == Ok(ReadPlan(t, SelectRange(p2)))
  {
    ParseTwo(a, b, p1, p2);
    assert [t, a, b][1..] == [a, b];
  }

  /** A repeated key: the later `start=` wins. */
  lemma DoReadRepeatedCase()
    ensures DoRead(["t", "start=a", "start=b"]) == Ok(ReadPlan("t", InfiniteRange("b")))
  {
    var a: Bytes := "start=a";
    var b: Bytes := "start=b";
    var va: Bytes := "a";
    var vb: Bytes := "b";
    assert a == Name(Start) + "=" + va && b == Name(Start) + "=" + vb;
    var p1 := Update(NoArgs, Start, va);
    ParseArgOf(NoArgs, Start, va);
    ParseArgOf(p1, Start, vb);
    DoReadTwo("t", a, b, p1, Update(p1, Start, vb));
  }

  /** The ranges of the client's read tests, as `cbt read` would select them. */
  lemma DoReadPrefixCase()
    ensures DoRead(["t", "prefix=jad"]) == Ok(ReadPlan("t", PrefixRange("jad")))
  {
    var t: Bytes := "t";
    var jad: Bytes := "jad";
    var a: Bytes := "prefix=jad";
    assert a == Name(Prefix) + "=" + jad;
    DoReadOne(t, Prefix, jad);
  }

  lemma DoReadStartCase()
    ensures DoRead(["t", "start=tjefferson"]) == Ok(ReadPlan("t", InfiniteRange("tjefferson")))
  {
    var t: Bytes := "t";
    var v: Bytes := "tjefferson";
    var a: Bytes := "start=tjefferson";
    assert a == Name(Start) + "=" + v;
    DoReadOne(t, Start, v);
  }

  lemma DoReadStartLimitCase()
    ensures DoRead(["t", "start=gargamel", "limit=hubbard"]) == Ok(ReadPlan("t", NewRange("gargamel", "hubbard")))
  {
    var t: Bytes := "t";
    var lo: Bytes := "gargamel";
    var hi: Bytes := "hubbard";
    var a: Bytes := "start=gargamel";
    var b: Bytes := "limit=hubbard";
    var p1 := Update(NoArgs, Start, lo);
    var p2 := ReadArgs(lo, hi, []);
    assert a == Name(Start) + "=" + lo;
    assert b == Name(Limit) + "=" + hi;
    ParseArgOf(NoArgs, Start, lo);
    ParseArgOf(p1, Limit, hi);
    assert Update(p1, Limit, hi) == p2;
    DoReadTwo(t, a, b, p1, p2);
  }

  /** Mixing start/limit with prefix is refused. */
  lemma DoReadMixedCase()
    ensures DoRead(["t", "start=a", "prefix=b"]) == Err(MixedPrefix)
  {
    var t: Bytes := "t";
    var x: Bytes := "a";
    var y: Bytes := "b";
    var a: Bytes := "start=a";
    var b: Bytes := "prefix=b";
    var p1 := Update(NoArgs, Start, x);
    var p2 := ReadArgs(x, [], y);
    assert a == Name(Start) + "=" + x;
    assert b == Name(Prefix) + "=" + y;
    ParseArgOf(NoArgs, Start, x);
    ParseArgOf(p1, Prefix, y);
    assert Update(p1, Prefix, y) == p2;
    DoReadTwo(t, a, b, p1, p2);
  }

  /** An argument without '=' is refused. */
  lemma DoReadBadArgCase()
    ensures DoRead(["t", "start"]) == Err(BadArg("start"))
  {
    var t: Bytes := "t";
    var a: Bytes := "start";
    var args := [t, a];
    assert args[1..] == [a];
    assert '=' !in a;
  }

  /** An unknown key is refused. */
  lemma DoReadUnknownKeyCase()
    ensures DoRead(["t", "end=z"]) == Err(UnknownArgKey("end"))
  {
    var t: Bytes := "t";
    var a: Bytes := "end=z";
    var args := [t, a];
    assert args[1..] == [a];
    assert a == "end" + "=" + "z";
    ArgRoundTrip("end", "z");
  }
}
