/** Scored intents as the classifier returns them, and the reduction that picks one. */
module Intents {
  import opened Wrappers

  /** One classification label with its confidence score. Confidences are only
      ever compared, so a real number stands for the JavaScript number. */
  datatype Intent = Intent(name: string, confidence: real)

  /** `k` is where `reduce((prev, curr) => prev.confidence > curr.confidence ? prev : curr)`
      settles: an element of maximal confidence, and no later element reaches it,
      so among equally confident intents the last one wins. */
  predicate IsLastMax(s: seq<Intent>, k: int)
  {
    && 0 <= k < |s|
    && (forall j :: 0 <= j < |s| ==> s[j].confidence <= s[k].confidence)
    && (forall j :: k < j < |s| ==> s[j].confidence < s[k].confidence)
  }

  /** `intents.every(intent => intent.confidence < t)` (true of the empty list). */
  predicate AllBelow(s: seq<Intent>, t: real)
  {
    forall j :: 0 <= j < |s| ==> s[j].confidence < t
  }

  /** The reduction from position `i` on, with `s[best]` as the accumulator `prev`:
      `prev` survives only when it is strictly more confident than `curr`. */
  function ReduceFrom(s: seq<Intent>, best: nat, i: nat): (k: nat)
    requires best < i <= |s|
    requires forall j :: 0 <= j < i ==> s[j].confidence <= s[best].confidence
    requires forall j :: best < j < i ==> s[j].confidence < s[best].confidence
    ensures IsLastMax(s, k)
    decreases |s| - i
  {
    if i == |s| then best
    else if s[best].confidence > s[i].confidence then ReduceFrom(s, best, i + 1)
    else ReduceFrom(s, i, i + 1)
  }

  /** Index of the intent `intents.reduce(...)` returns (no initial value, so the
      first element starts as `prev`). */
  function HighestConfidence(s: seq<Intent>): (k: nat)
    requires |s| > 0
    ensures IsLastMax(s, k)
  {
    ReduceFrom(s, 0, 1)
  }

  /** `intents.length ? intents.reduce(...) : null`. */
  function SelectHighest(s: seq<Intent>): (r: Option<Intent>)
    ensures r.None? <==> |s| == 0
    ensures r.Some? ==> r.value in s
    ensures r.Some? ==> forall j :: 0 <= j < |s| ==> s[j].confidence <= r.value.confidence
    ensures r.Some? ==> exists k :: IsLastMax(s, k) && r.value == s[k]
  {
    if |s| > 0 then Some(s[HighestConfidence(s)]) else None
  }

  /** At most one index satisfies IsLastMax, so it pins the reduction down:
      the reference definition and the reduction agree in both directions. */
  lemma HighestConfidenceIsTheLastMax(s: seq<Intent>, k: int)
    requires |s| > 0
    ensures IsLastMax(s, k) <==> k == HighestConfidence(s)
  {
  }

  /** Tie-break: when two positions share the maximal confidence, the earlier
      one is never selected. */
  lemma TieGoesToTheLater(s: seq<Intent>, i: nat, j: nat)
    requires i < j < |s|
    requires s[i].confidence == s[j].confidence
    requires forall m :: 0 <= m < |s| ==> s[m].confidence <= s[i].confidence
    ensures HighestConfidence(s) != i
    ensures HighestConfidence(s) >= j
  {
  }

  /** The reduction is a left fold: extending the list by `x` compares the old
      winner with `x` exactly as one more reduce step does. */
  lemma {:induction false} HighestConfidenceSnoc(s: seq<Intent>, x: Intent)
    requires |s| > 0
    ensures HighestConfidence(s + [x]) ==
      if s[HighestConfidence(s)].confidence > x.confidence then HighestConfidence(s) else |s|
  {
    var t := s + [x];
    var h := HighestConfidence(s);
    var k := if s[h].confidence > x.confidence then h else |s|;
    assert forall j :: 0 <= j < |s| ==> t[j] == s[j];
    assert t[|s|] == x;
    assert IsLastMax(t, k);
    HighestConfidenceIsTheLastMax(t, k);
  }

  /** The `every` test against a threshold agrees with comparing the selected
      intent alone: every confidence is below `t` exactly when the winner's is. */
  lemma {:induction false} AllBelowIffWinnerBelow(s: seq<Intent>, t: real)
    requires |s| > 0
    ensures AllBelow(s, t) <==> s[HighestConfidence(s)].confidence < t
  {
    var h := HighestConfidence(s);
    if s[h].confidence < t {
      forall j | 0 <= j < |s| ensures s[j].confidence < t {
        assert s[j].confidence <= s[h].confidence;
      }
    }
  }
}
