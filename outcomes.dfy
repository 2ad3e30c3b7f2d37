/** What one remote call of the NextDNS client reports back to the dispatch loops,
    and how the loops classify a failure. */
module Outcomes {

  datatype Option<T> = None | Some(value: T)

  /** The result of one remote call (a save or a delete): it returned normally, or it threw
      an exception whose message may be null (None). */
  datatype Outcome = Ok | Fail(msg: Option<string>)

  /** The status code the loops look for in an exception message. */
  const RateLimitCode: string := "429"

  /** `pat` occurs in `s` starting at position `i`. */
  predicate OccursAt(s: string, pat: string, i: int)
  {
    0 <= i && i + |pat| <= |s| && s[i..i + |pat|] == pat
  }

  /** Java's `String.contains`: `pat` occurs somewhere in `s` as a contiguous block. */
  predicate Contains(s: string, pat: string)
    decreases |s|
  {
    |pat| <= |s| && (s[..|pat|] == pat || Contains(s[1..], pat))
  }

  /** A failure is rate-limited when its message is non-null and mentions the status code. */
  predicate IsRateLimited(o: Outcome)
  {
    o.Fail? && o.msg.Some? && Contains(o.msg.value, RateLimitCode)
  }

  /** Every other failure, including one with a null message, is fatal. */
  predicate IsFatal(o: Outcome)
  {
    o.Fail? && !IsRateLimited(o)
  }

  /** The scan in `Contains` finds exactly the positions at which `pat` occurs. */
  lemma {:induction false} ContainsIffOccurs(s: string, pat: string)
    ensures Contains(s, pat) <==> exists i :: OccursAt(s, pat, i)
    decreases |s|
  {
    if |pat| <= |s| {
      if s[..|pat|] == pat {
        assert OccursAt(s, pat, 0);
      } else {
        ContainsIffOccurs(s[1..], pat);
        if Contains(s[1..], pat) {
          var i :| OccursAt(s[1..], pat, i);
          assert s[1..][i..i + |pat|] == s[i + 1..i + 1 + |pat|];
          assert OccursAt(s, pat, i + 1);
        } else {
          forall i | 0 <= i <= |s| - |pat|
            ensures !OccursAt(s, pat, i)
          {
            if i == 0 {
              assert s[0..|pat|] == s[..|pat|];
            } else {
              assert s[1..][i - 1..i - 1 + |pat|] == s[i..i + |pat|];
              assert !OccursAt(s[1..], pat, i - 1);
            }
          }
        }
      }
    }
  }

  /** A message that carries the code somewhere, with anything before and after it,
      classifies the failure as rate-limited. */
  lemma RateLimitedWhenCodeInside(prefix: string, suffix: string)
    ensures IsRateLimited(Fail(Some(prefix + RateLimitCode + suffix)))
  {
    var s := prefix + RateLimitCode + suffix;
    assert s[|prefix|..|prefix| + |RateLimitCode|] == RateLimitCode;
    assert OccursAt(s, RateLimitCode, |prefix|);
    ContainsIffOccurs(s, RateLimitCode);
  }
}
