/** Generic facts about walking a sequence from left to right. */
module Seqs {
  import opened Wrappers

  /** `f` holds of every element; defined on the last element, like the folds below. */
  predicate All<A>(xs: seq<A>, f: A -> bool)
    decreases |xs|
  {
    |xs| == 0 || (All(xs[..|xs| - 1], f) && f(xs[|xs| - 1]))
  }

  lemma {:induction false} AllIff<A>(xs: seq<A>, f: A -> bool)
    ensures All(xs, f) <==> forall i :: 0 <= i < |xs| ==> f(xs[i])
    decreases |xs|
  {
    if |xs| > 0 {
      var init := xs[..|xs| - 1];
      AllIff(init, f);
      assert forall i :: 0 <= i < |init| ==> init[i] == xs[i];
    }
  }

  /**
   * `f` applied to each of `xs` in order, stopping at the first element it
   * rejects, which becomes the error.
   */
  function ParseAll<A, B>(xs: seq<A>, f: A -> Option<B>): (r: Result<seq<B>, A>)
    ensures r.Ok? ==> |r.value| == |xs|
    decreases |xs|
  {
    if |xs| == 0 then Ok([])
    else
      var n := |xs| - 1;
      match ParseAll(xs[..n], f)
      case Err(e) => Err(e)
      case Ok(init) =>
        match f(xs[n])
        case None => Err(xs[n])
        case Some(b) => Ok(init + [b])
  }

  /** `f` accepts every element of `xs` before position `n`. */
  ghost predicate AcceptsBefore<A, B>(xs: seq<A>, f: A -> Option<B>, n: nat)
    requires n <= |xs|
  {
    forall i :: 0 <= i < n ==> f(xs[i]).Some?
  }

  /**
   * `ParseAll` succeeds exactly when `f` accepts every element; otherwise
   * its error is the first element `f` rejects.
   */
  lemma {:induction false} ParseAllFails<A, B>(xs: seq<A>, f: A -> Option<B>)
    ensures ParseAll(xs, f).Ok? <==> AcceptsBefore(xs, f, |xs|)
    ensures ParseAll(xs, f).Err? ==>
      exists i :: 0 <= i < |xs| && xs[i] == ParseAll(xs, f).error && f(xs[i]).None? && AcceptsBefore(xs, f, i)
    decreases |xs|
  {
    if |xs| > 0 {
      var n := |xs| - 1;
      var init := xs[..n];
      ParseAllFails(init, f);
      assert forall i :: 0 <= i < n ==> init[i] == xs[i];
      if ParseAll(init, f).Err? {
        var i :| 0 <= i < n && init[i] == ParseAll(init, f).error && f(init[i]).None? && AcceptsBefore(init, f, i);
        assert xs[i] == init[i];
        assert AcceptsBefore(xs, f, i);
      } else if f(xs[n]).None? {
        assert AcceptsBefore(xs, f, n);
      }
    }
  }

  /** On success, result `i` is what `f` makes of element `i`. */
  lemma {:induction false} ParseAllValues<A, B>(xs: seq<A>, f: A -> Option<B>, i: nat)
    requires ParseAll(xs, f).Ok? && i < |xs|
    ensures f(xs[i]) == Some(ParseAll(xs, f).value[i])
    decreases |xs|
  {
    var n := |xs| - 1;
    var init := xs[..n];
    if i < n {
      ParseAllValues(init, f, i);
      assert init[i] == xs[i];
    }
  }

  /** A single accepted element parses to its value. */
  lemma ParseAllSingle<A, B>(x: A, f: A -> Option<B>)
    requires f(x).Some?
    ensures ParseAll([x], f) == Ok([f(x).value])
  {
    var xs := [x];
    assert xs[..0] == [] && xs[0] == x;
    assert ParseAll(xs[..0], f) == Ok([]);
    assert [] + [f(x).value] == [f(x).value];
  }
}
