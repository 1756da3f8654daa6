/**
 * The `.cbtrc` file of the `cbt` tool: lines of `key = value` that supply
 * defaults for the -project, -zone, -cluster and -creds flags. Reading the
 * file is a parameter here; the model starts from its contents.
 */
module CbtConfig {
  import opened Wrappers
  import opened Text

  datatype Config = Config(project: Bytes, zone: Bytes, cluster: Bytes, creds: Bytes)

  /** The outcome of reading `$HOME/.cbtrc`. */
  datatype ConfigFile = Missing | Unreadable | Contents(data: Bytes)

  /** Why `loadConfig` stops the program. */
  datatype ConfigError = ReadFailed | BadLine(line: Bytes) | UnknownKey(key: Bytes)

  /** The four settings the file may name. */
  datatype Setting = Project | Zone | Cluster | Creds

  function Name(s: Setting): Bytes
  {
    match s
    case Project => "project"
    case Zone => "zone"
    case Cluster => "cluster"
    case Creds => "creds"
  }

  /** The setting a key names, if `loadConfig` knows it. */
  function SettingOf(key: Bytes): (r: Option<Setting>)
    ensures r.Some? ==> Name(r.value) == key
    ensures r.None? ==> forall s: Setting :: Name(s) != key
  {
    if key == "project" then Some(Project)
    else if key == "zone" then Some(Zone)
    else if key == "cluster" then Some(Cluster)
    else if key == "creds" then Some(Creds)
    else None
  }

  function Get(c: Config, s: Setting): Bytes
  {
    match s
    case Project => c.project
    case Zone => c.zone
    case Cluster => c.cluster
    case Creds => c.creds
  }

  /** Gives setting `s` the value `v`: it changes and no other does. */
  function Set(c: Config, s: Setting, v: Bytes): (r: Config)
    ensures Get(r, s) == v
    ensures forall t: Setting :: t != s ==> Get(r, t) == Get(c, t)
  {
    match s
    case Project => c.(project := v)
    case Zone => c.(zone := v)
    case Cluster => c.(cluster := v)
    case Creds => c.(creds := v)
  }

  /** `bufio.ScanLines` drops one '\r' before the end of each line. */
  function DropCR(line: Bytes): Bytes
  {
    if |line| > 0 && line[|line| - 1] == '\r' then line[..|line| - 1] else line
  }

  function DropCRs(lines: seq<Bytes>): (r: seq<Bytes>)
    ensures |r| == |lines|
    ensures forall i :: 0 <= i < |r| ==> r[i] == DropCR(lines[i])
  {
    if |lines| == 0 then [] else [DropCR(lines[0])] + DropCRs(lines[1..])
  }

  /** The pieces without the empty one after a final newline. */
  function DropLastEmpty(pieces: seq<Bytes>): (r: seq<Bytes>)
    requires |pieces| >= 1
    ensures |r| <= |pieces| && r == pieces[..|r|]
  {
    if pieces[|pieces| - 1] == [] then pieces[..|pieces| - 1] else pieces
  }

  /**
   * The lines a `bufio.Scanner` yields: the text between newlines, minus a
   * final empty piece when the data ends in a newline (or is empty), each
   * without a trailing '\r'.
   */
  function ScanLines(data: Bytes): (lines: seq<Bytes>)
    ensures forall i :: 0 <= i < |lines| ==> '\n' !in lines[i]
  {
    var pieces := Split(data, '\n');
    var kept := DropLastEmpty(pieces);
    assert forall i :: 0 <= i < |kept| ==> kept[i] == pieces[i];
    DropCRs(kept)
  }

  /** The trimmed text before the first '=' of `line`. */
  function LineKey(line: Bytes): Bytes
    requires '=' in line
  {
    TrimSpace(line[..IndexOf(line, '=').value])
  }

  /** The trimmed text after the first '=' of `line`. */
  function LineValue(line: Bytes): Bytes
    requires '=' in line
  {
    TrimSpace(line[IndexOf(line, '=').value + 1..])
  }

  /**
   * One line of the file: split at the first '=', both sides trimmed; a
   * line without '=' and an unknown key are errors, and a known key sets
   * that setting alone.
   */
  function ApplyLine(c: Config, line: Bytes): (r: Result<Config, ConfigError>)
    ensures '=' !in line ==> r == Err(BadLine(line))
    ensures '=' in line ==> (r.Ok? <==> SettingOf(LineKey(line)).Some?)
    ensures '=' in line && r.Err? ==> r.error == UnknownKey(LineKey(line))
    ensures '=' in line && r.Ok? ==> Get(r.value, SettingOf(LineKey(line)).value) == LineValue(line)
    ensures '=' in line && r.Ok? ==> forall t: Setting :: Name(t) != LineKey(line) ==> Get(r.value, t) == Get(c, t)
  {
    if '=' !in line then Err(BadLine(line))
    else
      match SettingOf(LineKey(line))
      case None => Err(UnknownKey(LineKey(line)))
      case Some(s) => Ok(Set(c, s, LineValue(line)))
  }

  /** The lines in order; the first bad line ends the program. */
  function ApplyLines(c: Config, lines: seq<Bytes>): Result<Config, ConfigError>
    decreases |lines|
  {
    if |lines| == 0 then Ok(c)
    else
      var next :- ApplyLine(c, lines[0]);
      ApplyLines(next, lines[1..])
  }

  /**
   * Reading lines in two batches is reading them at once: the file is a
   * sequence of assignments, so a later line overrides an earlier one and
   * a bad line anywhere fails the whole file.
   */
  lemma {:induction false} ApplyLinesConcat(c: Config, a: seq<Bytes>, b: seq<Bytes>)
    ensures ApplyLines(c, a + b) ==
      match ApplyLines(c, a)
      case Err(e) => Err(e)
      case Ok(mid) => ApplyLines(mid, b)
    decreases |a|
  {
    if |a| == 0 {
      assert a + b == b;
    } else {
      assert (a + b)[0] == a[0];
      assert (a + b)[1..] == a[1..] + b;
      match ApplyLine(c, a[0])
      case Err(_) =>
      case Ok(next) => ApplyLinesConcat(next, a[1..], b);
    }
  }

  /** `loadConfig`: a missing file changes nothing, an unreadable one is an error. */
  function LoadConfig(file: ConfigFile, c: Config): Result<Config, ConfigError>
  {
    match file
    case Missing => Ok(c)
    case Unreadable => Err(ReadFailed)
    case Contents(data) => ApplyLines(c, ScanLines(data))
  }

  // ---------------------------------------------------------------------
  // Writing a configuration in the documented format reads it back.
  // ---------------------------------------------------------------------

  /** A value the file format can hold: one line, no surrounding white space. */
  predicate Storable(v: Bytes)
  {
    Trimmed(v) && '\n' !in v
  }

  predicate StorableConfig(c: Config)
  {
    forall s: Setting :: Storable(Get(c, s))
  }

  function SettingLine(s: Setting, v: Bytes): Bytes
  {
    Name(s) + " = " + v
  }

  function SettingLines(c: Config): seq<Bytes>
  {
    [SettingLine(Project, c.project), SettingLine(Zone, c.zone),
     SettingLine(Cluster, c.cluster), SettingLine(Creds, c.creds)]
  }

  /** The configuration in the format of the tool's help text, one setting per line. */
  function Format(c: Config): Bytes
  {
    Join(SettingLines(c) + [[]], '\n')
  }

  lemma KeyValueIndex(key: Bytes, v: Bytes)
    requires '=' !in key
    ensures IndexOf(key + " = " + v, '=') == Some(|key| + 1)
  {
    var line := key + " = " + v;
    assert line[|key| + 1] == '=';
    assert line[..|key| + 1] == key + " ";
    IndexOfAt(line, '=', |key| + 1);
  }

  /** The text before the '=' of a written line trims to the key. */
  lemma KeySide(key: Bytes, v: Bytes)
    requires Trimmed(key)
    ensures TrimSpace((key + " = " + v)[..|key| + 1]) == key
  {
    var line := key + " = " + v;
    assert line[..|key| + 1] == [] + key + " " by {
      assert line == (key + " ") + ("= " + v);
    }
    TrimSpaceAround([], key, " ");
  }

  /** The text after the '=' of a written line trims to the value. */
  lemma ValueSide(key: Bytes, v: Bytes)
    requires Trimmed(v)
    ensures TrimSpace((key + " = " + v)[|key| + 2..]) == v
  {
    var line := key + " = " + v;
    assert line[|key| + 2..] == " " + v + [] by {
      assert line == (key + " =") + (" " + v);
    }
    TrimSpaceAround(" ", v, []);
  }

  /** A `key = value` line reads back as exactly that key and value. */
  lemma KeyValueLineParts(key: Bytes, v: Bytes)
    requires '=' !in key && Trimmed(key) && Storable(v)
    ensures '=' in key + " = " + v
    ensures LineKey(key + " = " + v) == key
    ensures LineValue(key + " = " + v) == v
  {
    KeyValueIndex(key, v);
    KeySide(key, v);
    ValueSide(key, v);
  }

  lemma SettingLineParts(s: Setting, v: Bytes)
    requires Storable(v)
    ensures '=' in SettingLine(s, v)
    ensures LineKey(SettingLine(s, v)) == Name(s)
    ensures LineValue(SettingLine(s, v)) == v
  {
    var key := Name(s);
    assert '=' !in key && Trimmed(key) by {
      match s
      case Project =>
      case Zone =>
      case Cluster =>
      case Creds =>
    }
    KeyValueLineParts(key, v);
  }

  lemma SettingOfName(s: Setting)
    ensures SettingOf(Name(s)) == Some(s)
  {
  }

  /** Applying the line written for a setting sets exactly that setting. */
  lemma ApplySettingLine(c: Config, s: Setting, v: Bytes)
    requires Storable(v)
    ensures ApplyLine(c, SettingLine(s, v)) == Ok(Set(c, s, v))
  {
    SettingLineParts(s, v);
    SettingOfName(s);
  }

  lemma SettingLineShape(s: Setting, v: Bytes)
    requires Storable(v)
    ensures '\n' !in SettingLine(s, v)
    ensures DropCR(SettingLine(s, v)) == SettingLine(s, v)
  {
    var line := SettingLine(s, v);
    assert line[|line| - 1] != '\r' by {
      if |v| > 0 {
        assert line[|line| - 1] == v[|v| - 1];
      }
    }
  }

  /** Lines that do not end in '\r' lose nothing to `DropCRs`. */
  lemma DropCRsKeep(lines: seq<Bytes>)
    requires forall i :: 0 <= i < |lines| ==> DropCR(lines[i]) == lines[i]
    ensures DropCRs(lines) == lines
  {
  }

  lemma SplitTerminated(lines: seq<Bytes>)
    requires forall i :: 0 <= i < |lines| ==> '\n' !in lines[i]
    ensures DropLastEmpty(Split(Join(lines + [[]], '\n'), '\n')) == lines
  {
    var parts := lines + [[]];
    assert forall i :: 0 <= i < |parts| ==> '\n' !in parts[i] by {
      forall i | 0 <= i < |parts|
        ensures '\n' !in parts[i]
      {
        if i < |lines| {
          assert parts[i] == lines[i];
        }
      }
    }
    SplitJoin(parts, '\n');
    assert parts[..|parts| - 1] == lines;
  }

  /**
   * The scanner yields back the lines of a newline-terminated text whose
   * lines hold no newline and do not end in '\r'.
   */
  lemma ScanJoined(lines: seq<Bytes>)
    requires forall i :: 0 <= i < |lines| ==> '\n' !in lines[i] && DropCR(lines[i]) == lines[i]
    ensures ScanLines(Join(lines + [[]], '\n')) == lines
  {
    SplitTerminated(lines);
    DropCRsKeep(lines);
  }

  /**
   * The scanner yields every line of a newline-terminated text, each
   * without a trailing '\r'.
   */
  lemma ScanTerminated(lines: seq<Bytes>)
    requires forall i :: 0 <= i < |lines| ==> '\n' !in lines[i]
    ensures ScanLines(Join(lines + [[]], '\n')) == DropCRs(lines)
  {
    SplitTerminated(lines);
  }

  /**
   * A final line without a newline is yielded too: the scanner returns the
   * text after the last newline when it is not empty.
   */
  lemma ScanUnterminated(lines: seq<Bytes>)
    requires |lines| > 0 && lines[|lines| - 1] != []
    requires forall i :: 0 <= i < |lines| ==> '\n' !in lines[i]
    ensures ScanLines(Join(lines, '\n')) == DropCRs(lines)
  {
    SplitJoin(lines, '\n');
  }

  /** A "\r\n" line end loses its '\r', and a last line without a newline counts. */
  lemma ScanCrLf(x: Bytes, y: Bytes)
    requires '\n' !in x && '\n' !in y && y != [] && DropCR(y) == y
    ensures ScanLines(x + "\r\n" + y) == [x, y]
  {
    var a := x + "\r";
    assert Join([a, y], '\n') == x + "\r\n" + y by {
      assert [a, y][1..] == [y];
    }
    assert '\n' !in a by {
      assert forall k :: 0 <= k < |x| ==> a[k] == x[k];
    }
    ScanUnterminated([a, y]);
    assert DropCR(a) == x by {
      assert a[..|a| - 1] == x;
    }
  }

  /** A file holding one setting line and no newline sets that setting. */
  lemma LoadUnterminated(c: Config, st: Setting, v: Bytes)
    requires Storable(v)
    ensures LoadConfig(Contents(SettingLine(st, v)), c) == Ok(Set(c, st, v))
  {
    var line := SettingLine(st, v);
    var lines := [line];
    assert ScanLines(line) == lines by {
      SettingLineShape(st, v);
      assert Join(lines, '\n') == line;
      ScanUnterminated(lines);
    }
    assert ApplyLines(c, lines) == Ok(Set(c, st, v)) by {
      ApplySettingLineAt(c, lines, 0, st, v);
      assert lines[0..] == lines && lines[1..] == [];
    }
  }

  lemma ScanFormat(c: Config)
    requires StorableConfig(c)
    ensures ScanLines(Format(c)) == SettingLines(c)
  {
    assert Storable(Get(c, Project)) && Storable(Get(c, Zone));
    assert Storable(Get(c, Cluster)) && Storable(Get(c, Creds));
    SettingLineShape(Project, c.project);
    SettingLineShape(Zone, c.zone);
    SettingLineShape(Cluster, c.cluster);
    SettingLineShape(Creds, c.creds);
    ScanJoined(SettingLines(c));
  }

  /** A line written for a setting, followed by more lines. */
  lemma ApplySettingLineAt(c: Config, lines: seq<Bytes>, k: nat, s: Setting, v: Bytes)
    requires k < |lines| && lines[k] == SettingLine(s, v) && Storable(v)
    ensures ApplyLines(c, lines[k..]) == ApplyLines(Set(c, s, v), lines[k + 1..])
  {
    ApplySettingLine(c, s, v);
    assert lines[k..][0] == lines[k] && lines[k..][1..] == lines[k + 1..];
  }

  /** Setting all four settings from `c` yields `c`. */
  lemma SetEvery(d: Config, c: Config)
    ensures Set(Set(Set(Set(d, Project, c.project), Zone, c.zone), Cluster, c.cluster), Creds, c.creds) == c
  {
  }

  /** Applying the written lines of `c`, from any start, yields `c`. */
  lemma ApplySettingLines(d: Config, c: Config)
    requires StorableConfig(c)
    ensures ApplyLines(d, SettingLines(c)) == Ok(c)
  {
    var lines := SettingLines(c);
    assert lines[0..] == lines;
    assert Storable(Get(c, Project)) && Storable(Get(c, Zone));
    assert Storable(Get(c, Cluster)) && Storable(Get(c, Creds));
    var c1 := Set(d, Project, c.project);
    var c2 := Set(c1, Zone, c.zone);
    var c3 := Set(c2, Cluster, c.cluster);
    var c4 := Set(c3, Creds, c.creds);
    ApplySettingLineAt(d, lines, 0, Project, c.project);
    ApplySettingLineAt(c1, lines, 1, Zone, c.zone);
    ApplySettingLineAt(c2, lines, 2, Cluster, c.cluster);
    ApplySettingLineAt(c3, lines, 3, Creds, c.creds);
    assert ApplyLines(c4, lines[4..]) == Ok(c4);
    SetEvery(d, c);
  }

  /** Reading back the formatted configuration yields it, whatever the defaults. */
  lemma FormatRoundTrip(c: Config, defaults: Config)
    requires StorableConfig(c)
    ensures LoadConfig(Contents(Format(c)), defaults) == Ok(c)
  {
    ScanFormat(c);
    ApplySettingLines(defaults, c);
  }
}
