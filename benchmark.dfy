/** The threshold benchmark: for every query it records how many returned
    matches score above 0.90, 0.95, 0.99 and 0.999, and whether the top match
    is the queried image itself (index.js). */
module Benchmark {
  import opened QueryMatching

  // countMatchesOver

  /** `matches.filter(match => match.score > threshold)`. */
  function MatchesOver(matches: seq<Match>, threshold: real): (over: seq<Match>)
    ensures |over| <= |matches|
    ensures forall m :: m in over ==> m in matches && m.score > threshold
  {
    if |matches| == 0 then []
    else if matches[0].score > threshold then [matches[0]] + MatchesOver(matches[1..], threshold)
    else MatchesOver(matches[1..], threshold)
  }

  /** The filter keeps every match that scores above the threshold, as often
      as it occurs, and no other. */
  lemma {:induction false} MatchesOverKeeps(matches: seq<Match>, threshold: real)
    ensures forall m ::
      multiset(MatchesOver(matches, threshold))[m] == if m.score > threshold then multiset(matches)[m] else 0
  {
    if |matches| > 0 {
      assert matches == [matches[0]] + matches[1..];
      MatchesOverKeeps(matches[1..], threshold);
    }
  }

  /** The filter keeps the order of the list: filtering a concatenation
      concatenates the filtered parts. */
  lemma {:induction false} MatchesOverAppend(a: seq<Match>, b: seq<Match>, threshold: real)
    ensures MatchesOver(a + b, threshold) == MatchesOver(a, threshold) + MatchesOver(b, threshold)
  {
    if |a| > 0 {
      assert (a + b)[1..] == a[1..] + b;
      MatchesOverAppend(a[1..], b, threshold);
    } else {
      assert a + b == b;
    }
  }

  /** `countMatchesOver`: how many matches score strictly above the threshold. */
  function CountMatchesOver(matches: seq<Match>, threshold: real): (count: nat)
    ensures count <= |matches|
  {
    |MatchesOver(matches, threshold)|
  }

  /** Appending one match adds one to the count exactly when it scores
      strictly above the threshold. */
  lemma CountMatchesOverSnoc(matches: seq<Match>, m: Match, threshold: real)
    ensures CountMatchesOver(matches + [m], threshold)
         == CountMatchesOver(matches, threshold) + (if m.score > threshold then 1 else 0)
  {
    MatchesOverAppend(matches, [m], threshold);
    assert [m][1..] == [];
  }

  /** Every match above the threshold is counted, and nothing at or below it. */
  lemma {:induction false} CountMatchesOverExtremes(matches: seq<Match>, threshold: real)
    ensures (forall i :: 0 <= i < |matches| ==> matches[i].score > threshold)
      ==> CountMatchesOver(matches, threshold) == |matches|
    ensures (forall i :: 0 <= i < |matches| ==> matches[i].score <= threshold)
      ==> CountMatchesOver(matches, threshold) == 0
  {
    if |matches| > 0 {
      CountMatchesOverExtremes(matches[1..], threshold);
      assert forall i :: 0 <= i < |matches| - 1 ==> matches[1..][i] == matches[i + 1];
    }
  }

  /** The count is the number of positions whose match scores strictly
      above the threshold. */
  lemma {:induction false} CountMatchesOverPositions(matches: seq<Match>, threshold: real)
    ensures CountMatchesOver(matches, threshold)
         == |set i | 0 <= i < |matches| && matches[i].score > threshold|
  {
    var positions := set i | 0 <= i < |matches| && matches[i].score > threshold;
    if |matches| == 0 {
      assert positions == {};
    } else {
      var front, m := matches[..|matches| - 1], matches[|matches| - 1];
      assert matches == front + [m];
      CountMatchesOverPositions(front, threshold);
      CountMatchesOverSnoc(front, m, threshold);
      var frontPositions := set i | 0 <= i < |front| && front[i].score > threshold;
      forall i | 0 <= i < |front|
        ensures matches[i] == front[i]
      {
      }
      if m.score > threshold {
        assert positions == frontPositions + {|front|};
        assert |front| !in frontPositions;
      } else {
        assert positions == frontPositions;
      }
    }
  }

  /** A match whose score equals the threshold is not counted: appending it
      leaves the count at that threshold unchanged. */
  lemma CountMatchesOverStrict(matches: seq<Match>, m: Match)
    ensures CountMatchesOver(matches + [m], m.score) == CountMatchesOver(matches, m.score)
  {
    CountMatchesOverSnoc(matches, m, m.score);
  }

  /** Raising the threshold never increases the count. */
  lemma {:induction false} CountMatchesOverMonotone(matches: seq<Match>, lower: real, higher: real)
    requires lower <= higher
    ensures CountMatchesOver(matches, higher) <= CountMatchesOver(matches, lower)
  {
    if |matches| > 0 {
      CountMatchesOverMonotone(matches[1..], lower, higher);
    }
  }

  // query

  /** The five accumulator arrays one image variant's queries push into. */
  class ThresholdTally {
    var returnedOver90: seq<nat>
    var returnedOver95: seq<nat>
    var returnedOver99: seq<nat>
    var returnedOver999: seq<nat>
    var topIsCorrect: seq<bool>

    /** The four count lists grow together, one entry per query, and at every
        query a stricter threshold never counts more; the top-is-correct list
        is never longer than the count lists. */
    ghost predicate Valid()
      reads this
    {
      |returnedOver95| == |returnedOver90|
      && |returnedOver99| == |returnedOver90|
      && |returnedOver999| == |returnedOver90|
      && |topIsCorrect| <= |returnedOver90|
      && forall k :: 0 <= k < |returnedOver90| ==>
        returnedOver90[k] >= returnedOver95[k] >= returnedOver99[k] >= returnedOver999[k]
    }

    constructor ()
      ensures Valid()
      ensures returnedOver90 == [] && returnedOver95 == []
      ensures returnedOver99 == [] && returnedOver999 == [] && topIsCorrect == []
    {
      returnedOver90, returnedOver95, returnedOver99, returnedOver999 := [], [], [], [];
      topIsCorrect := [];
    }

    /** `query` with the returned matches given: one count per threshold, and
        the top-is-correct flag only when something came back. */
    method Query(results: seq<Match>, sha: string)
      requires Valid()
      modifies this
      ensures Valid()
      ensures returnedOver90 == old(returnedOver90) + [CountMatchesOver(results, 0.90)]
      ensures returnedOver95 == old(returnedOver95) + [CountMatchesOver(results, 0.95)]
      ensures returnedOver99 == old(returnedOver99) + [CountMatchesOver(results, 0.99)]
      ensures returnedOver999 == old(returnedOver999) + [CountMatchesOver(results, 0.999)]
      ensures topIsCorrect == old(topIsCorrect)
        + (if |results| > 0 then [results[0].sha256 == sha] else [])
    {
      CountMatchesOverMonotone(results, 0.90, 0.95);
      CountMatchesOverMonotone(results, 0.95, 0.99);
      CountMatchesOverMonotone(results, 0.99, 0.999);
      returnedOver90 := returnedOver90 + [CountMatchesOver(results, 0.90)];
      returnedOver95 := returnedOver95 + [CountMatchesOver(results, 0.95)];
      returnedOver99 := returnedOver99 + [CountMatchesOver(results, 0.99)];
      returnedOver999 := returnedOver999 + [CountMatchesOver(results, 0.999)];

      if |results| > 0 {
        topIsCorrect := topIsCorrect + [results[0].sha256 == sha];
      }
    }
  }
}
