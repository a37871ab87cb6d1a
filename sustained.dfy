/**
 * The sustained-threshold rule shared by the CPU, memory and disk detectors.
 *
 * A detection window is a sequence of ticks. `pick(t)` is the sample that
 * tick `t` contributes when it is a hit, and None when it is not (the probe
 * returned nothing, or its reading did not pass the resource's test). After
 * the window the detector reports the sample of the latest hit when there
 * were at least `minHits` hits, and nothing otherwise.
 */
module Sustained {
  import opened Wrappers

  /** The number of hits in the window; never more than the number of ticks. */
  function Hits<T, S>(ticks: seq<T>, pick: T -> Option<S>): (n: nat)
    ensures n <= |ticks|
  {
    if ticks == [] then 0
    else Hits(ticks[..|ticks| - 1], pick) + (if pick(ticks[|ticks| - 1]).Some? then 1 else 0)
  }

  /** The sample of the latest hit; present exactly when some tick was a hit. */
  function LastHit<T, S>(ticks: seq<T>, pick: T -> Option<S>): (r: Option<S>)
    ensures r.Some? <==> Hits(ticks, pick) > 0
  {
    if ticks == [] then None
    else if pick(ticks[|ticks| - 1]).Some? then pick(ticks[|ticks| - 1])
    else LastHit(ticks[..|ticks| - 1], pick)
  }

  /**
   * What a detector reports for the window. A report needs `minHits` hits
   * and at least one hit, so `minHits == 0` with no hit still reports
   * nothing, and `minHits` above the window size never reports.
   */
  function Verdict<T, S>(ticks: seq<T>, pick: T -> Option<S>, minHits: nat): (r: Option<S>)
    ensures r.Some? <==> Hits(ticks, pick) >= minHits && Hits(ticks, pick) > 0
    ensures minHits > |ticks| ==> r.None?
  {
    if Hits(ticks, pick) >= minHits then LastHit(ticks, pick) else None
  }

  /** One more tick of a detector loop. */
  lemma Step<T, S>(ticks: seq<T>, pick: T -> Option<S>, i: nat)
    requires i < |ticks|
    ensures Hits(ticks[..i + 1], pick) == Hits(ticks[..i], pick) + (if pick(ticks[i]).Some? then 1 else 0)
    ensures LastHit(ticks[..i + 1], pick) == if pick(ticks[i]).Some? then pick(ticks[i]) else LastHit(ticks[..i], pick)
  {
    assert ticks[..i + 1][..i] == ticks[..i];
  }

  /** The positions of the hits in the window. */
  function HitTicks<T, S>(ticks: seq<T>, pick: T -> Option<S>): set<nat> {
    set i: nat | i < |ticks| && pick(ticks[i]).Some?
  }

  /** `Hits` counts exactly the ticks that are hits. */
  lemma {:induction false} HitsCountsHitTicks<T, S>(ticks: seq<T>, pick: T -> Option<S>)
    ensures Hits(ticks, pick) == |HitTicks(ticks, pick)|
  {
    if ticks != [] {
      var n := |ticks| - 1;
      var front := ticks[..n];
      HitsCountsHitTicks(front, pick);
      var before := HitTicks(front, pick);
      assert HitTicks(ticks, pick) == if pick(ticks[n]).Some? then before + {n} else before;
    }
  }

  /** The reported sample comes from a hit after which no tick was a hit. */
  lemma {:induction false} LastHitIsLatest<T, S>(ticks: seq<T>, pick: T -> Option<S>)
    requires LastHit(ticks, pick).Some?
    ensures exists i :: 0 <= i < |ticks| && pick(ticks[i]) == LastHit(ticks, pick)
                        && forall j :: i < j < |ticks| ==> pick(ticks[j]).None?
  {
    var n := |ticks| - 1;
    if pick(ticks[n]).Some? {
      assert pick(ticks[n]) == LastHit(ticks, pick);
    } else {
      var front := ticks[..n];
      LastHitIsLatest(front, pick);
      var i :| 0 <= i < |front| && pick(front[i]) == LastHit(front, pick)
               && forall j :: i < j < |front| ==> pick(front[j]).None?;
      assert ticks[i] == front[i];
      assert forall j :: i < j < |ticks| ==> pick(ticks[j]).None? by {
        forall j | i < j < |ticks| ensures pick(ticks[j]).None? {
          if j < n {
            assert ticks[j] == front[j];
          }
        }
      }
    }
  }

  /** Conversely, a hit after which no tick was a hit is the one reported, never an earlier one. */
  lemma {:induction false} LatestHitIsReported<T, S>(ticks: seq<T>, pick: T -> Option<S>, i: nat)
    requires i < |ticks| && pick(ticks[i]).Some?
    requires forall j :: i < j < |ticks| ==> pick(ticks[j]).None?
    ensures LastHit(ticks, pick) == pick(ticks[i])
  {
    var n := |ticks| - 1;
    if i < n {
      var front := ticks[..n];
      assert front[i] == ticks[i];
      assert forall j :: i < j < |front| ==> pick(front[j]).None? by {
        forall j | i < j < |front| ensures pick(front[j]).None? {
          assert front[j] == ticks[j];
        }
      }
      LatestHitIsReported(front, pick, i);
    }
  }

  lemma {:induction false} HitsOfAppend<T, S>(a: seq<T>, b: seq<T>, pick: T -> Option<S>)
    ensures Hits(a + b, pick) == Hits(a, pick) + Hits(b, pick)
    ensures LastHit(a + b, pick) == if LastHit(b, pick).Some? then LastHit(b, pick) else LastHit(a, pick)
  {
    if b == [] {
      assert a + b == a;
    } else {
      var n := |b| - 1;
      assert (a + b)[..|a + b| - 1] == a + b[..n];
      assert (a + b)[|a + b| - 1] == b[n];
      HitsOfAppend(a, b[..n], pick);
    }
  }

  /** A tick that is not a hit (no sample, or below the threshold) changes nothing: it is skipped, not fatal. */
  lemma MissedTickIsSkipped<T, S>(before: seq<T>, t: T, after: seq<T>, pick: T -> Option<S>, minHits: nat)
    requires pick(t).None?
    ensures Verdict(before + [t] + after, pick, minHits) == Verdict(before + after, pick, minHits)
  {
    HitsOfAppend(before, [t], pick);
    HitsOfAppend(before + [t], after, pick);
    HitsOfAppend(before, after, pick);
    assert [t][..0] == [];
  }

  /** A pick that is a hit wherever another one is counts at least as many hits. */
  lemma {:induction false} HitsDominated<T, S, U>(ticks: seq<T>, fewer: T -> Option<S>, more: T -> Option<U>)
    requires forall t :: fewer(t).Some? ==> more(t).Some?
    ensures Hits(ticks, fewer) <= Hits(ticks, more)
  {
    if ticks != [] {
      HitsDominated(ticks[..|ticks| - 1], fewer, more);
    }
  }
}
