/** Scoring of one similarity query against the index: where the image's own
    entry (same SHA-256) shows up among the returned matches, the best score
    of a different image, and the running tallies the benchmark keeps per
    image variant (query-matching.js). */
module QueryMatching {
  import opened Wrappers
  import opened Numeric

  /** One returned match: the id under which an image was stored (its
      SHA-256 as a hex string) and its similarity score. */
  datatype Match = Match(sha256: string, score: real)

  // pctTrue

  /** The number of true entries, counted from the end. */
  function CountTrue(arr: seq<bool>): (n: nat)
    ensures n <= |arr|
  {
    if |arr| == 0 then 0
    else CountTrue(arr[..|arr| - 1]) + (if arr[|arr| - 1] then 1 else 0)
  }

  lemma CountTrueSnoc(arr: seq<bool>, b: bool)
    ensures CountTrue(arr + [b]) == CountTrue(arr) + (if b then 1 else 0)
  {
    assert (arr + [b])[..|arr|] == arr;
  }

  /** `pctTrue` (and `correctPct` of the index benchmark): the fraction of
      true entries; 0/0 gives NaN on an empty list, which is None here. */
  function PctTrue(arr: seq<bool>): (pct: Option<real>)
    ensures pct.None? <==> |arr| == 0
    ensures pct.Some? ==> 0.0 <= pct.value <= 1.0
    ensures pct.Some? ==> pct.value * |arr| as real == CountTrue(arr) as real
  {
    if |arr| == 0 then None
    else
      var pct := (1.0 * CountTrue(arr) as real) / |arr| as real;
      assert pct * |arr| as real == CountTrue(arr) as real;
      DivideBetween(CountTrue(arr) as real, |arr| as real, 0.0, 1.0);
      Some(pct)
  }

  // correctScore

  /** `matches.filter(match => match.sha256 === sha)`. */
  function WithSha(matches: seq<Match>, sha: string): (same: seq<Match>)
    ensures |same| <= |matches|
    ensures forall m :: m in same ==> m in matches && m.sha256 == sha
  {
    if |matches| == 0 then []
    else if matches[0].sha256 == sha then [matches[0]] + WithSha(matches[1..], sha)
    else WithSha(matches[1..], sha)
  }

  /** The filter keeps every match carrying `sha`, as often as it occurs,
      and no other. */
  lemma {:induction false} WithShaKeeps(matches: seq<Match>, sha: string)
    ensures forall m ::
      multiset(WithSha(matches, sha))[m] == if m.sha256 == sha then multiset(matches)[m] else 0
  {
    if |matches| > 0 {
      assert matches == [matches[0]] + matches[1..];
      WithShaKeeps(matches[1..], sha);
    }
  }

  /** The filter keeps the order of the list: filtering a concatenation
      concatenates the filtered parts. */
  lemma {:induction false} WithShaAppend(a: seq<Match>, b: seq<Match>, sha: string)
    ensures WithSha(a + b, sha) == WithSha(a, sha) + WithSha(b, sha)
  {
    if |a| > 0 {
      assert (a + b)[1..] == a[1..] + b;
      WithShaAppend(a[1..], b, sha);
    } else {
      assert a + b == b;
    }
  }

  /** The filtered list starts with the first match carrying `sha`, and is
      empty exactly when there is none. */
  lemma {:induction false} WithShaFirst(matches: seq<Match>, sha: string)
    ensures |WithSha(matches, sha)| == 0 <==> forall i :: 0 <= i < |matches| ==> matches[i].sha256 != sha
    ensures |WithSha(matches, sha)| > 0 ==>
      exists i :: (0 <= i < |matches| && matches[i] == WithSha(matches, sha)[0]
        && forall j :: 0 <= j < i ==> matches[j].sha256 != sha)
  {
    if |matches| > 0 {
      WithShaFirst(matches[1..], sha);
      if matches[0].sha256 == sha {
        assert matches[0] == WithSha(matches, sha)[0];
      } else if |WithSha(matches, sha)| > 0 {
        var i :| 0 <= i < |matches| - 1 && matches[1..][i] == WithSha(matches[1..], sha)[0]
          && (forall j :: 0 <= j < i ==> matches[1..][j].sha256 != sha);
        assert matches[i + 1] == WithSha(matches, sha)[0];
        forall j | 0 <= j < i + 1
          ensures matches[j].sha256 != sha
        {
          if j > 0 {
            assert matches[j] == matches[1..][j - 1];
          }
        }
      } else {
        forall i | 0 <= i < |matches|
          ensures matches[i].sha256 != sha
        {
          if i > 0 {
            assert matches[i] == matches[1..][i - 1];
          }
        }
      }
    }
  }

  /** `correctScore`: the score of the first match whose id is `sha`, or null
      (None) when the image itself was not returned. */
  function CorrectScore(sha: string, matches: seq<Match>): (score: Option<real>)
    ensures score.None? <==> forall i :: 0 <= i < |matches| ==> matches[i].sha256 != sha
    ensures score.Some? ==>
      exists i :: (0 <= i < |matches| && matches[i].sha256 == sha && matches[i].score == score.value
        && forall j :: 0 <= j < i ==> matches[j].sha256 != sha)
  {
    var sameSha := WithSha(matches, sha);
    WithShaFirst(matches, sha);
    if |sameSha| > 0 then
      assert sameSha[0] in sameSha;
      Some(sameSha[0].score)
    else None
  }

  // highestIncorrectScore

  /** `highestIncorrectScore`: the score of the first match, in list order,
      whose id is not `sha` (the list comes back best first); null (None) when
      the list is empty or holds only the image itself. */
  function HighestIncorrectScore(sha: string, matches: seq<Match>): (score: Option<real>)
    ensures score.None? <==> forall i :: 0 <= i < |matches| ==> matches[i].sha256 == sha
    ensures score.Some? ==>
      exists i :: (0 <= i < |matches| && matches[i].sha256 != sha && matches[i].score == score.value
        && forall j :: 0 <= j < i ==> matches[j].sha256 == sha)
  {
    if |matches| == 0 then None
    else if matches[0].sha256 != sha then Some(matches[0].score)
    else
      var rest := HighestIncorrectScore(sha, matches[1..]);
      assert forall i :: 1 <= i < |matches| ==> matches[i] == matches[1..][i - 1];
      if rest.Some? then
        var i :| 0 <= i < |matches| - 1 && matches[1..][i].sha256 != sha
          && matches[1..][i].score == rest.value
          && (forall j :: 0 <= j < i ==> matches[1..][j].sha256 == sha);
        assert matches[i + 1].sha256 != sha && matches[i + 1].score == rest.value;
        rest
      else rest
  }

  /** The top match decides one of the two scores: it is the correct score
      when it is the image itself and the highest incorrect score otherwise. */
  lemma TopMatchScores(sha: string, matches: seq<Match>)
    requires |matches| > 0
    ensures matches[0].sha256 == sha ==> CorrectScore(sha, matches) == Some(matches[0].score)
    ensures matches[0].sha256 != sha ==> HighestIncorrectScore(sha, matches) == Some(matches[0].score)
  {
    if matches[0].sha256 == sha {
      var s := CorrectScore(sha, matches);
      var i :| 0 <= i < |matches| && matches[i].sha256 == sha && matches[i].score == s.value
        && (forall j :: 0 <= j < i ==> matches[j].sha256 != sha);
      assert i == 0;
    }
  }

  // query

  /** JavaScript truthiness of a score or null: null and 0 are falsy. */
  predicate Truthy(score: Option<real>)
  {
    score.Some? && score.value != 0.0
  }

  /** The four accumulator arrays one image variant's queries push into. */
  class Tally {
    var matchingScore: seq<real>
    var highestNonMatchingScore: seq<real>
    var topIsCorrect: seq<bool>
    var correctPresent: seq<bool>

    /** Every query records presence once; a recorded matching score stands
        for exactly one `true` presence entry, and no recorded score is 0. */
    ghost predicate Valid()
      reads this
    {
      |matchingScore| == CountTrue(correctPresent)
      && |topIsCorrect| <= |correctPresent|
      && |highestNonMatchingScore| <= |correctPresent|
      && (forall k :: 0 <= k < |matchingScore| ==> matchingScore[k] != 0.0)
      && (forall k :: 0 <= k < |highestNonMatchingScore| ==> highestNonMatchingScore[k] != 0.0)
    }

    constructor ()
      ensures Valid()
      ensures matchingScore == [] && highestNonMatchingScore == []
      ensures topIsCorrect == [] && correctPresent == []
    {
      matchingScore, highestNonMatchingScore := [], [];
      topIsCorrect, correctPresent := [], [];
    }

    /** `query` with the returned matches given: one presence entry always,
        the matching score only when it is truthy, the highest incorrect
        score only when it is truthy, and the top-is-correct flag only when
        something came back. */
    method Query(results: seq<Match>, sha: string)
      requires Valid()
      modifies this
      ensures Valid()
      ensures correctPresent == old(correctPresent) + [Truthy(CorrectScore(sha, results))]
      ensures matchingScore == old(matchingScore)
        + (if Truthy(CorrectScore(sha, results)) then [CorrectScore(sha, results).value] else [])
      ensures highestNonMatchingScore == old(highestNonMatchingScore)
        + (if Truthy(HighestIncorrectScore(sha, results)) then [HighestIncorrectScore(sha, results).value] else [])
      ensures topIsCorrect == old(topIsCorrect)
        + (if |results| > 0 then [results[0].sha256 == sha] else [])
    {
      var cScore := CorrectScore(sha, results);
      CountTrueSnoc(correctPresent, Truthy(cScore));
      if cScore.Some? && cScore.value != 0.0 {
        matchingScore := matchingScore + [cScore.value];
        correctPresent := correctPresent + [true];
      } else {
        correctPresent := correctPresent + [false];
      }

      var highestIncorrect := HighestIncorrectScore(sha, results);
      if highestIncorrect.Some? && highestIncorrect.value != 0.0 {
        highestNonMatchingScore := highestNonMatchingScore + [highestIncorrect.value];
      }

      if |results| > 0 {
        topIsCorrect := topIsCorrect + [results[0].sha256 == sha];
      }
    }
  }
}
