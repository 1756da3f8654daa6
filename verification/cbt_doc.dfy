/**
 * The `indent` helper of the tool's documentation template: every line of
 * a text gets the same prefix.
 */
module CbtDoc {
  import opened Wrappers
  import opened Text

  function PrefixAll(lines: seq<Bytes>, ind: Bytes): (r: seq<Bytes>)
    ensures |r| == |lines|
    ensures forall i :: 0 <= i < |r| ==> r[i] == ind + lines[i]
  {
    if |lines| == 0 then [] else [ind + lines[0]] + PrefixAll(lines[1..], ind)
  }

  /** Splits `s` at its newlines, prefixes each line with `ind` and joins them again. */
  function Indent(s: Bytes, ind: Bytes): Bytes
  {
    Join(PrefixAll(Split(s, '\n'), ind), '\n')
  }

  /** Reference definition: `s` with `ind` inserted after every newline. */
  function AfterNewlines(s: Bytes, ind: Bytes): Bytes
  {
    if |s| == 0 then []
    else if s[0] == '\n' then "\n" + ind + AfterNewlines(s[1..], ind)
    else [s[0]] + AfterNewlines(s[1..], ind)
  }

  lemma {:induction false} AfterNewlinesConcat(a: Bytes, b: Bytes, ind: Bytes)
    ensures AfterNewlines(a + b, ind) == AfterNewlines(a, ind) + AfterNewlines(b, ind)
    decreases |a|
  {
    if |a| == 0 {
      assert a + b == b;
    } else {
      assert (a + b)[0] == a[0];
      assert (a + b)[1..] == a[1..] + b;
      AfterNewlinesConcat(a[1..], b, ind);
    }
  }

  lemma {:induction false} AfterNewlinesAbsent(s: Bytes, ind: Bytes)
    requires '\n' !in s
    ensures AfterNewlines(s, ind) == s
    decreases |s|
  {
    if |s| > 0 {
      assert s[0] in s;
      AfterNewlinesAbsent(s[1..], ind);
      assert s == [s[0]] + s[1..];
    }
  }

  lemma IndentStep(line: Bytes, rest: Bytes, ind: Bytes)
    requires '\n' !in line
    ensures Indent(line + "\n" + rest, ind) == ind + (line + "\n" + Indent(rest, ind))
  {
    var tail := Split(rest, '\n');
    SplitAfterPiece(line, '\n', rest);
    var others := PrefixAll(tail, ind);
    var parts := PrefixAll([line] + tail, ind);
    assert parts == [ind + line] + others by {
      assert parts[1..] == others;
    }
    assert |others| >= 1 && parts[1..] == others;
    assert Join(parts, '\n') == ind + line + "\n" + Join(others, '\n');
    var joined := Join(others, '\n');
    assert ind + line + "\n" + joined == ind + (line + "\n" + joined);
  }

  lemma AfterNewlinesStep(line: Bytes, rest: Bytes, ind: Bytes)
    requires '\n' !in line
    ensures AfterNewlines(line + "\n" + rest, ind) == line + "\n" + (ind + AfterNewlines(rest, ind))
  {
    var nl := "\n" + rest;
    assert line + "\n" + rest == line + nl;
    AfterNewlinesConcat(line, nl, ind);
    AfterNewlinesAbsent(line, ind);
    assert nl[0] == '\n' && nl[1..] == rest;
    var after := AfterNewlines(rest, ind);
    assert line + ("\n" + ind + after) == line + "\n" + (ind + after);
  }

  lemma IndentOneLine(s: Bytes, ind: Bytes)
    requires '\n' !in s
    ensures Indent(s, ind) == ind + s
  {
    assert Split(s, '\n') == [s];
    assert PrefixAll([s], ind) == [ind + s];
  }

  /** Indenting puts `ind` before the text and after each of its newlines. */
  lemma {:induction false} IndentReference(s: Bytes, ind: Bytes)
    ensures Indent(s, ind) == ind + AfterNewlines(s, ind)
    decreases |s|
  {
    match IndexOf(s, '\n')
    case None =>
      AfterNewlinesAbsent(s, ind);
      IndentOneLine(s, ind);
    case Some(i) =>
      var line := s[..i];
      var rest := s[i + 1..];
      assert s == line + "\n" + rest;
      IndentStep(line, rest, ind);
      AfterNewlinesStep(line, rest, ind);
      IndentReference(rest, ind);
  }

  /**
   * For a prefix without newlines, the indented text has exactly the lines
   * of the original, each behind the prefix.
   */
  lemma IndentLines(s: Bytes, ind: Bytes)
    requires '\n' !in ind
    ensures Split(Indent(s, ind), '\n') == PrefixAll(Split(s, '\n'), ind)
  {
    var lines := PrefixAll(Split(s, '\n'), ind);
    forall i | 0 <= i < |lines|
      ensures '\n' !in lines[i]
    {
      assert lines[i] == ind + Split(s, '\n')[i];
    }
    SplitJoin(lines, '\n');
  }

  /** The template indents the empty text to the bare prefix, and a two-line text twice. */
  lemma IndentCases()
    ensures Indent("", "\t") == "\t"
    ensures Indent("a\nb", "  ") == "  a\n  b"
  {
    IndentReference("", "\t");
    IndentReference("a\nb", "  ");
    var s: Bytes := "a\nb";
    assert s[1..] == "\nb" && s[1..][1..] == "b" && s[1..][1..][1..] == [];
  }
}
