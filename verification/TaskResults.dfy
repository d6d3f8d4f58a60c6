/**
  The text kept of a task's result.
 */
module TaskResults {
  import opened Common
  import opened Utf8

  const MAX_RESULT := 500

  /** `&result[..500]` with dots after it for a long result; `None` when the slice panics. */
  function Truncated(result: bytes): Option<bytes> {
    if |result| <= MAX_RESULT then Some(result)
    else if IsCharBoundary(result, MAX_RESULT) then Some(result[..MAX_RESULT] + "...")
    else None
  }

  /** The slice succeeds exactly when it does not cut a character; what is kept is then valid. */
  lemma TruncationIsValidIff(result: bytes)
    requires Valid(result)
    ensures Truncated(result).Some? <==> |result| <= MAX_RESULT || !IsTail(result[MAX_RESULT])
    ensures Truncated(result).Some? ==>
              && Valid(Truncated(result).value)
              && Truncated(result).value == (if |result| > 500 then result[..500] + "..." else result)
  {
    if |result| > MAX_RESULT && IsCharBoundary(result, MAX_RESULT) {
      ValidSplit(result, MAX_RESULT);
      AsciiIsValid("...");
      ValidConcat(result[..MAX_RESULT], "...");
    }
  }

  function Repeat(c: byte, n: nat): (s: bytes)
    ensures |s| == n && forall k :: 0 <= k < n ==> s[k] == c
  {
    if n == 0 then [] else [c] + Repeat(c, n - 1)
  }

  /** A valid result with a two-byte character across the limit: the completion is lost with its result. */
  lemma LongResultPanics() returns (result: bytes)
    ensures Valid(result) && Truncated(result).None?
  {
    var e: bytes := ['\U{C3}', '\U{A9}'];
    AsciiIsValid(Repeat('a', MAX_RESULT - 1));
    assert Width(e) == 2 && e[2..] == [];
    ValidConcat(Repeat('a', MAX_RESULT - 1), e);
    result := Repeat('a', MAX_RESULT - 1) + e;
    assert result[MAX_RESULT] == '\U{A9}';
  }
}
