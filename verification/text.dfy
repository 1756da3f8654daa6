/**
 * Go strings as the model sees them: sequences of bytes, each byte written as
 * a `char` below 256 so that literals such as "gargamel" read naturally. The
 * module defines Go's string ordering and the handful of `strings` package
 * operations the command-line tool and the client rely on.
 */
module Text {
  import opened Wrappers

  /** One byte of a Go string. */
  type Byte = c: char | c as int < 256 witness '\0'

  /** A Go string or `[]byte`. */
  type Bytes = seq<Byte>

  const MaxByte: Byte := '\U{FF}'

  // ---------------------------------------------------------------------
  // Ordering: Go compares strings byte by byte.
  // ---------------------------------------------------------------------

  /** `a < b` on Go strings: lexicographic on bytes, a proper prefix first. */
  predicate Less(a: Bytes, b: Bytes)
  {
    if |a| == 0 then |b| > 0
    else if |b| == 0 then false
    else if a[0] != b[0] then a[0] < b[0]
    else Less(a[1..], b[1..])
  }

  /** `a <= b` on Go strings. */
  predicate LessEq(a: Bytes, b: Bytes)
  {
    a == b || Less(a, b)
  }

  predicate IsPrefix(p: Bytes, s: Bytes)
  {
    |p| <= |s| && s[..|p|] == p
  }

  /** `a` and `b` agree on their first `d` bytes and differ at byte `d`, where `a` is smaller. */
  predicate DiffersAt(a: Bytes, b: Bytes, d: nat)
  {
    d < |a| && d < |b| && a[..d] == b[..d] && a[d] < b[d]
  }

  lemma {:induction false} LessAtDifference(a: Bytes, b: Bytes, d: nat)
    requires DiffersAt(a, b, d)
    ensures Less(a, b)
    decreases d
  {
    if d > 0 {
      assert a[0] == a[..d][0] == b[..d][0] == b[0];
      assert a[1..][..d - 1] == a[..d][1..] == b[..d][1..] == b[1..][..d - 1];
      LessAtDifference(a[1..], b[1..], d - 1);
    }
  }

  lemma {:induction false} LessOfProperPrefix(a: Bytes, b: Bytes)
    requires IsPrefix(a, b) && |a| < |b|
    ensures Less(a, b)
  {
    if |a| > 0 {
      assert a[0] == b[..|a|][0] == b[0];
      assert b[1..][..|a| - 1] == b[..|a|][1..];
      LessOfProperPrefix(a[1..], b[1..]);
    }
  }

  /** Every instance of `Less` is either a proper prefix or a first difference. */
  lemma {:induction false} LessCases(a: Bytes, b: Bytes)
    requires Less(a, b)
    ensures (IsPrefix(a, b) && |a| < |b|) || exists d: nat :: DiffersAt(a, b, d)
  {
    if |a| == 0 {
    } else if a[0] != b[0] {
      assert DiffersAt(a, b, 0);
    } else {
      LessCases(a[1..], b[1..]);
      if IsPrefix(a[1..], b[1..]) && |a[1..]| < |b[1..]| {
        assert b[..|a|] == [b[0]] + b[1..][..|a| - 1];
        assert a == [a[0]] + a[1..];
      } else {
        var d: nat :| DiffersAt(a[1..], b[1..], d);
        assert a[..d + 1] == [a[0]] + a[1..][..d];
        assert b[..d + 1] == [b[0]] + b[1..][..d];
        assert DiffersAt(a, b, d + 1);
      }
    }
  }

  lemma {:induction false} LessIrreflexive(a: Bytes)
    ensures !Less(a, a)
  {
    if |a| > 0 {
      LessIrreflexive(a[1..]);
    }
  }

  lemma {:induction false} LessTransitive(a: Bytes, b: Bytes, c: Bytes)
    requires Less(a, b) && Less(b, c)
    ensures Less(a, c)
  {
    if |a| > 0 && a[0] == b[0] && b[0] == c[0] {
      LessTransitive(a[1..], b[1..], c[1..]);
    }
  }

  lemma LessAsymmetric(a: Bytes, b: Bytes)
    ensures !(Less(a, b) && Less(b, a))
  {
    if Less(a, b) && Less(b, a) {
      LessTransitive(a, b, a);
      LessIrreflexive(a);
    }
  }

  lemma {:induction false} LessTotal(a: Bytes, b: Bytes)
    ensures a == b || Less(a, b) || Less(b, a)
  {
    if |a| > 0 && |b| > 0 && a[0] == b[0] {
      LessTotal(a[1..], b[1..]);
      if a[1..] == b[1..] {
        assert a == [a[0]] + a[1..] && b == [b[0]] + b[1..];
      }
    }
  }

  /** A prefix of `s` is at most `s`. */
  lemma PrefixLessEq(p: Bytes, s: Bytes)
    requires IsPrefix(p, s)
    ensures LessEq(p, s)
  {
    if |p| < |s| {
      LessOfProperPrefix(p, s);
    } else {
      assert p == s[..|p|] == s;
    }
  }

  // ---------------------------------------------------------------------
  // Searching: strings.Index and strings.LastIndex for a one-byte needle.
  // ---------------------------------------------------------------------

  /** `strings.Index(s, c)`, with `None` for Go's -1. */
  function IndexOf(s: Bytes, c: Byte): (r: Option<nat>)
    ensures r.None? <==> c !in s
    ensures r.Some? ==> r.value < |s| && s[r.value] == c && c !in s[..r.value]
  {
    if |s| == 0 then None
    else if s[0] == c then Some(0)
    else match IndexOf(s[1..], c)
      case None => None
      case Some(i) =>
        assert s[..i + 1] == [s[0]] + s[1..][..i];
        Some(i + 1)
  }

  /** `strings.LastIndex(s, c)`, with `None` for Go's -1. */
  function LastIndexOf(s: Bytes, c: Byte): (r: Option<nat>)
    ensures r.None? <==> c !in s
    ensures r.Some? ==> r.value < |s| && s[r.value] == c && c !in s[r.value + 1..]
  {
    if |s| == 0 then None
    else if s[|s| - 1] == c then Some(|s| - 1)
    else
      var r := LastIndexOf(s[..|s| - 1], c);
      assert r.None? ==> s == s[..|s| - 1] + [s[|s| - 1]];
      assert r.Some? ==> s[r.value + 1..] == s[..|s| - 1][r.value + 1..] + [s[|s| - 1]];
      r
  }

  /** The first occurrence is the one with no earlier occurrence. */
  lemma IndexOfAt(s: Bytes, c: Byte, i: nat)
    requires i < |s| && s[i] == c && c !in s[..i]
    ensures IndexOf(s, c) == Some(i)
  {
  }

  /** The last occurrence is the one with no later occurrence. */
  lemma LastIndexOfAt(s: Bytes, c: Byte, i: nat)
    requires i < |s| && s[i] == c && c !in s[i + 1..]
    ensures LastIndexOf(s, c) == Some(i)
  {
  }

  /** Number of occurrences of `c` in `s`. */
  function Count(s: Bytes, c: Byte): nat
  {
    if |s| == 0 then 0 else (if s[0] == c then 1 else 0) + Count(s[1..], c)
  }

  lemma {:induction false} CountConcat(a: Bytes, b: Bytes, c: Byte)
    ensures Count(a + b, c) == Count(a, c) + Count(b, c)
  {
    if |a| > 0 {
      assert (a + b)[1..] == a[1..] + b;
      CountConcat(a[1..], b, c);
    } else {
      assert a + b == b;
    }
  }

  lemma {:induction false} CountAbsent(s: Bytes, c: Byte)
    requires c !in s
    ensures Count(s, c) == 0
  {
    if |s| > 0 {
      CountAbsent(s[1..], c);
    }
  }

  // ---------------------------------------------------------------------
  // strings.Split and strings.Join with a one-byte separator.
  // ---------------------------------------------------------------------

  /** `strings.Join(parts, sep)`. */
  function Join(parts: seq<Bytes>, sep: Byte): Bytes
  {
    if |parts| == 0 then []
    else if |parts| == 1 then parts[0]
    else parts[0] + [sep] + Join(parts[1..], sep)
  }

  /**
   * `strings.Split(s, sep)`: the pieces between separators, always at least
   * one (the empty string splits into one empty piece). Joining the pieces
   * back gives `s`, and there is one piece more than there are separators.
   */
  function Split(s: Bytes, sep: Byte): (r: seq<Bytes>)
    ensures |r| >= 1
    ensures forall i :: 0 <= i < |r| ==> sep !in r[i]
    ensures Join(r, sep) == s
    ensures |r| == Count(s, sep) + 1
    decreases |s|
  {
    match IndexOf(s, sep)
    case None =>
      CountAbsent(s, sep);
      [s]
    case Some(i) =>
      var rest := Split(s[i + 1..], sep);
      assert s == s[..i] + [sep] + s[i + 1..];
      CountConcat(s[..i] + [sep], s[i + 1..], sep);
      CountConcat(s[..i], [sep], sep);
      CountAbsent(s[..i], sep);
      assert ([s[..i]] + rest)[1..] == rest;
      [s[..i]] + rest
  }

  /** Splitting at a separator that follows a separator-free piece. */
  lemma SplitAfterPiece(a: Bytes, sep: Byte, b: Bytes)
    requires sep !in a
    ensures Split(a + [sep] + b, sep) == [a] + Split(b, sep)
  {
    var s := a + [sep] + b;
    assert s[..|a|] == a;
    IndexOfAt(s, sep, |a|);
    assert s[|a| + 1..] == b;
  }

  /** Splitting undoes joining when no part contains the separator. */
  lemma {:induction false} SplitJoin(parts: seq<Bytes>, sep: Byte)
    requires |parts| >= 1
    requires forall i :: 0 <= i < |parts| ==> sep !in parts[i]
    ensures Split(Join(parts, sep), sep) == parts
  {
    if |parts| == 1 {
      assert sep !in parts[0];
    } else {
      assert sep !in parts[0];
      SplitAfterPiece(parts[0], sep, Join(parts[1..], sep));
      SplitJoin(parts[1..], sep);
      assert parts == [parts[0]] + parts[1..];
    }
  }

  // ---------------------------------------------------------------------
  // strings.TrimSpace for single-byte (ASCII) white space.
  // ---------------------------------------------------------------------

  /** The ASCII white space Go's `unicode.IsSpace` accepts. */
  predicate IsSpace(c: Byte)
  {
    c == ' ' || c == '\t' || c == '\n' || c == '\r' || c == '\U{0B}' || c == '\U{0C}'
  }

  predicate AllSpace(s: Bytes)
  {
    forall i :: 0 <= i < |s| ==> IsSpace(s[i])
  }

  /** `s` neither starts nor ends with white space. */
  predicate Trimmed(s: Bytes)
  {
    |s| == 0 || (!IsSpace(s[0]) && !IsSpace(s[|s| - 1]))
  }

  function TrimLeft(s: Bytes): (r: Bytes)
    ensures |r| <= |s| && r == s[|s| - |r|..]
    ensures AllSpace(s[..|s| - |r|])
    ensures |r| == 0 || !IsSpace(r[0])
  {
    if |s| > 0 && IsSpace(s[0]) then
      var r := TrimLeft(s[1..]);
      assert s[..|s| - |r|] == [s[0]] + s[1..][..|s[1..]| - |r|];
      r
    else s
  }

  function TrimRight(s: Bytes): (r: Bytes)
    ensures |r| <= |s| && r == s[..|r|]
    ensures AllSpace(s[|r|..])
    ensures |r| == 0 || !IsSpace(r[|r| - 1])
  {
    if |s| > 0 && IsSpace(s[|s| - 1]) then
      var r := TrimRight(s[..|s| - 1]);
      assert s[|r|..] == s[..|s| - 1][|r|..] + [s[|s| - 1]];
      r
    else s
  }

  /** `strings.TrimSpace(s)`: the middle of `s` between white-space runs. */
  function TrimSpace(s: Bytes): (r: Bytes)
    ensures Trimmed(r)
  {
    var l := TrimLeft(s);
    var r := TrimRight(l);
    assert Trimmed(r) by {
      if |r| > 0 {
        assert r[0] == l[0];
      }
    }
    r
  }

  /** `s` is `r` at position `i`, with only white space before and after it. */
  predicate SpaceAroundAt(s: Bytes, r: Bytes, i: nat)
  {
    i + |r| <= |s| && r == s[i..i + |r|] && AllSpace(s[..i]) && AllSpace(s[i + |r|..])
  }

  /** `s` is `r` with white space on either side. */
  ghost predicate SpaceAround(s: Bytes, r: Bytes)
  {
    exists i: nat :: SpaceAroundAt(s, r, i)
  }

  lemma SliceOfSuffix(s: Bytes, i: nat, n: nat)
    requires i + n <= |s|
    ensures s[i..][..n] == s[i..i + n]
    ensures s[i..][n..] == s[i + n..]
  {
  }

  /** What `TrimSpace` removes is white space on either side of what it keeps. */
  lemma TrimSpaceSpan(s: Bytes)
    ensures SpaceAround(s, TrimSpace(s))
  {
    var l := TrimLeft(s);
    var i := |s| - |l|;
    var r := TrimRight(l);
    assert l == s[i..] && AllSpace(s[..i]);
    assert r == l[..|r|] && AllSpace(l[|r|..]);
    SliceOfSuffix(s, i, |r|);
    assert SpaceAroundAt(s, r, i);
  }

  lemma {:induction false} TrimLeftOfSpaces(a: Bytes, y: Bytes)
    requires AllSpace(a)
    requires |y| == 0 || !IsSpace(y[0])
    ensures TrimLeft(a + y) == y
  {
    if |a| > 0 {
      assert (a + y)[0] == a[0];
      assert (a + y)[1..] == a[1..] + y;
      TrimLeftOfSpaces(a[1..], y);
    } else {
      assert a + y == y;
    }
  }

  lemma {:induction false} TrimRightOfSpaces(y: Bytes, b: Bytes)
    requires AllSpace(b)
    requires |y| == 0 || !IsSpace(y[|y| - 1])
    ensures TrimRight(y + b) == y
  {
    if |b| > 0 {
      assert (y + b)[|y + b| - 1] == b[|b| - 1];
      assert (y + b)[..|y + b| - 1] == y + b[..|b| - 1];
      TrimRightOfSpaces(y, b[..|b| - 1]);
    } else {
      assert y + b == y;
    }
  }

  /** Trimming removes exactly the white space around a trimmed core. */
  lemma TrimSpaceAround(a: Bytes, x: Bytes, b: Bytes)
    requires AllSpace(a) && AllSpace(b) && Trimmed(x)
    ensures TrimSpace(a + x + b) == x
  {
    if |x| == 0 {
      assert a + x + b == (a + b) + [];
      TrimLeftOfSpaces(a + b, []);
    } else {
      assert a + x + b == a + (x + b);
      TrimLeftOfSpaces(a, x + b);
      TrimRightOfSpaces(x, b);
    }
  }
}
