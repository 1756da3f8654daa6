/**
 * Read-modify-write rules on one cell, as the client's integration test
 * exercises them: appending bytes to the value, and incrementing a value
 * that holds a signed 64-bit big-endian counter.
 */
module ReadModifyWrite {
  import opened Wrappers
  import opened Text
  import opened Numbers

  datatype Rule = AppendValue(suffix: Bytes) | Increment(delta: Int64)

  datatype RuleError = NotACounter(value: Bytes)

  /**
   * The cell's new value. A missing cell counts as empty for an append and
   * as 0 for an increment; an increment of a value that is not 8 bytes long
   * is refused. The sum wraps around like Go's int64 arithmetic.
   */
  function ApplyRule(current: Option<Bytes>, rule: Rule): (r: Result<Bytes, RuleError>)
    ensures rule.AppendValue? ==> r == Ok(current.GetOr([]) + rule.suffix)
    ensures rule.Increment? && current.None? ==> r == Ok(EncodeInt64(rule.delta))
    ensures rule.Increment? && r.Ok? ==> |r.value| == 8
    ensures r.Err? <==> rule.Increment? && current.Some? && |current.value| != 8
  {
    match rule
    case AppendValue(suffix) => Ok(current.GetOr([]) + suffix)
    case Increment(delta) =>
      match current
      case None => Ok(EncodeInt64(delta))
      case Some(v) =>
        if |v| != 8 then Err(NotACounter(v))
        else Ok(EncodeInt64(Wrap64(DecodeInt64(v) + delta)))
  }

  /** Two appends are one append of the concatenation. */
  lemma AppendTwice(current: Option<Bytes>, a: Bytes, b: Bytes)
    ensures ApplyRule(Some(ApplyRule(current, AppendValue(a)).value), AppendValue(b))
      == ApplyRule(current, AppendValue(a + b))
  {
    assert current.GetOr([]) + a + b == current.GetOr([]) + (a + b);
  }

  /** An increment adds to the counter's decoded value (modulo 2^64). */
  lemma IncrementAdds(current: Bytes, delta: Int64)
    requires |current| == 8
    ensures ApplyRule(Some(current), Increment(delta)).Ok?
    ensures DecodeInt64(ApplyRule(Some(current), Increment(delta)).value) == Wrap64(DecodeInt64(current) + delta)
  {
    Int64RoundTrip(Wrap64(DecodeInt64(current) + delta));
  }

  /** An increment of a missing cell starts the counter from 0. */
  lemma IncrementMissing(delta: Int64)
    ensures ApplyRule(None, Increment(delta)).Ok?
    ensures DecodeInt64(ApplyRule(None, Increment(delta)).value) == delta
  {
    Int64RoundTrip(delta);
  }

  /** Leading zero bytes add nothing to a big-endian value. */
  lemma {:induction false} DecodeZeros(z: Bytes)
    requires forall i :: 0 <= i < |z| ==> z[i] == '\0'
    ensures DecodeBigEndian(z) == 0
  {
    if |z| > 0 {
      DecodeZeros(z[..|z| - 1]);
    }
  }

  /**
   * The integration test's sequence on one cell: append [0,0,0], append
   * [0,0,0,0,17] (a big-endian 17 in 8 bytes altogether), then increment by 8.
   */
  lemma CounterCase()
    ensures ApplyRule(None, AppendValue(['\0', '\0', '\0'])) == Ok(['\0', '\0', '\0'])
    ensures ApplyRule(Some(['\0', '\0', '\0']), AppendValue(['\0', '\0', '\0', '\0', '\U{11}']))
      == Ok(['\0', '\0', '\0', '\0', '\0', '\0', '\0', '\U{11}'])
    ensures DecodeInt64(['\0', '\0', '\0', '\0', '\0', '\0', '\0', '\U{11}']) == 17
    ensures ApplyRule(Some(['\0', '\0', '\0', '\0', '\0', '\0', '\0', '\U{11}']), Increment(8))
      == Ok(['\0', '\0', '\0', '\0', '\0', '\0', '\0', '\U{19}'])
  {
    var empty: Bytes := [];
    assert empty + ['\0', '\0', '\0'] == ['\0', '\0', '\0'];
    assert Option<Bytes>.None.GetOr([]) == empty;
    var three: Bytes := ['\0', '\0', '\0'];
    assert three + ['\0', '\0', '\0', '\0', '\U{11}'] == ['\0', '\0', '\0', '\0', '\0', '\0', '\0', '\U{11}'];
    var v17: Bytes := ['\0', '\0', '\0', '\0', '\0', '\0', '\0', '\U{11}'];
    var v25: Bytes := ['\0', '\0', '\0', '\0', '\0', '\0', '\0', '\U{19}'];
    DecodeZeros(v17[..7]);
    assert DecodeInt64(v17) == 17;
    assert v25[..7] == v17[..7];
    assert DecodeBigEndian(v25) == 25;
    Int64BytesRoundTrip(v25);
    assert DecodeInt64(v25) == 25;
    assert Wrap64(17 + 8) == 25;
  }
}
