/**
 * The head-turn tracker: a bounded FIFO history of horizontal face centres
 * and the liveness decision derived from its spread.
 */
module HeadTurnTracker {
  import opened FaceBoxCodec

  /** At most this many centres are kept. */
  const HistoryCap: nat := 20
  /** Below this many centres no determination is made. */
  const MinSamples: nat := 10
  /** A spread strictly above this many pixels is a head turn. */
  const TurnThreshold: real := 40.0

  /** The horizontal centre of a box, `x + w / 2` (division of numbers, not integers). */
  function CenterX(box: FaceBox): (r: real)
    ensures box.w >= 0 ==> box.x as real <= r <= box.x as real + box.w as real
  {
    box.x as real + box.w as real / 2.0
  }

  /** The last `n` elements of `s` (all of `s` when it is shorter). */
  function LastN(s: seq<real>, n: nat): (r: seq<real>)
    ensures |r| == if |s| <= n then |s| else n
  {
    if |s| <= n then s else s[|s| - n..]
  }

  /** `push(center)` followed by one `shift()` when the history grew past the cap. */
  function Push(history: seq<real>, center: real): (r: seq<real>)
    ensures |history| < HistoryCap ==> r == history + [center]
    ensures |history| >= HistoryCap ==> r == history[1..] + [center]
  {
    var appended := history + [center];
    if |appended| > HistoryCap then appended[1..] else appended
  }

  /** `Math.max(...s)` for a non-empty list. */
  function SeqMax(s: seq<real>): (m: real)
    requires |s| > 0
  {
    if |s| == 1 then s[0]
    else
      var rest := SeqMax(s[1..]);
      if s[0] >= rest then s[0] else rest
  }

  /** `Math.min(...s)` for a non-empty list. */
  function SeqMin(s: seq<real>): (m: real)
    requires |s| > 0
  {
    if |s| == 1 then s[0]
    else
      var rest := SeqMin(s[1..]);
      if s[0] <= rest then s[0] else rest
  }

  /** SeqMax is an element of the list that no element exceeds. */
  lemma {:induction false} SeqMaxIsMaximum(s: seq<real>)
    requires |s| > 0
    ensures forall i :: 0 <= i < |s| ==> s[i] <= SeqMax(s)
    ensures exists i :: 0 <= i < |s| && s[i] == SeqMax(s)
  {
    if |s| > 1 {
      SeqMaxIsMaximum(s[1..]);
      var k :| 0 <= k < |s[1..]| && s[1..][k] == SeqMax(s[1..]);
      assert s[k + 1] == SeqMax(s[1..]);
      forall i | 0 <= i < |s| ensures s[i] <= SeqMax(s) {
        if i > 0 { assert s[i] == s[1..][i - 1]; }
      }
    } else {
      assert s[0] == SeqMax(s);
    }
  }

  /** SeqMin is an element of the list that no element is below. */
  lemma {:induction false} SeqMinIsMinimum(s: seq<real>)
    requires |s| > 0
    ensures forall i :: 0 <= i < |s| ==> SeqMin(s) <= s[i]
    ensures exists i :: 0 <= i < |s| && s[i] == SeqMin(s)
  {
    if |s| > 1 {
      SeqMinIsMinimum(s[1..]);
      var k :| 0 <= k < |s[1..]| && s[1..][k] == SeqMin(s[1..]);
      assert s[k + 1] == SeqMin(s[1..]);
      forall i | 0 <= i < |s| ensures SeqMin(s) <= s[i] {
        if i > 0 { assert s[i] == s[1..][i - 1]; }
      }
    } else {
      assert s[0] == SeqMin(s);
    }
  }

  /** The liveness decision on a history: enough samples, and a range `max - min` above the threshold. */
  predicate TurnDetected(history: seq<real>) {
    |history| >= MinSamples && SeqMax(history) - SeqMin(history) > TurnThreshold
  }

  /**
   * A turn is detected exactly when at least MinSamples centres are held and
   * two of them lie more than TurnThreshold pixels apart.
   */
  lemma TurnMeansSpread(history: seq<real>)
    ensures TurnDetected(history) <==>
      && |history| >= MinSamples
      && exists i, j :: 0 <= i < |history| && 0 <= j < |history| && history[i] - history[j] > TurnThreshold
  {
    if |history| > 0 {
      SeqMaxIsMaximum(history);
      SeqMinIsMinimum(history);
    }
  }

  /** Samples confined to a band no wider than the threshold never show a turn. */
  lemma NarrowBandNoTurn(history: seq<real>, lo: real, hi: real)
    requires forall i :: 0 <= i < |history| ==> lo <= history[i] <= hi
    requires hi - lo <= TurnThreshold
    ensures !TurnDetected(history)
  {
    TurnMeansSpread(history);
  }

  /** The history after appending every centre of `centers`, in order. */
  function PushAll(history: seq<real>, centers: seq<real>): (r: seq<real>)
    decreases |centers|
  {
    if centers == [] then history else PushAll(Push(history, centers[0]), centers[1..])
  }

  /** One append keeps exactly the most recent HistoryCap values. */
  lemma PushIsWindow(history: seq<real>, center: real)
    requires |history| <= HistoryCap
    ensures Push(history, center) == LastN(history + [center], HistoryCap)
  {
  }

  /** Element `i` of the window is element `|s| - |window| + i` of `s`. */
  lemma LastNAt(s: seq<real>, n: nat, i: nat)
    requires i < |LastN(s, n)|
    ensures LastN(s, n)[i] == s[|s| - |LastN(s, n)| + i]
  {
  }

  /** Trimming before appending more gives the same window as trimming afterwards. */
  lemma {:induction false} LastNOfAppend(s: seq<real>, t: seq<real>, n: nat)
    ensures LastN(LastN(s, n) + t, n) == LastN(s + t, n)
  {
    var w := LastN(s, n);
    var a := LastN(w + t, n);
    var b := LastN(s + t, n);
    assert |a| == |b|;
    forall i | 0 <= i < |a| ensures a[i] == b[i] {
      LastNAt(w + t, n, i);
      LastNAt(s + t, n, i);
      var k := |w| + |t| - |a| + i;
      if k < |w| {
        LastNAt(s, n, k);
      }
    }
  }

  /**
   * For any sequence of appends the history holds the most recently appended
   * values, in arrival order, at most HistoryCap of them.
   */
  lemma {:induction false} PushAllIsWindow(history: seq<real>, centers: seq<real>)
    requires |history| <= HistoryCap
    ensures PushAll(history, centers) == LastN(history + centers, HistoryCap)
    ensures |PushAll(history, centers)| <= HistoryCap
    decreases |centers|
  {
    if centers != [] {
      var c, rest := centers[0], centers[1..];
      PushIsWindow(history, c);
      PushGrows(history, c);
      PushAllIsWindow(Push(history, c), rest);
      calc {
        PushAll(history, centers);
        PushAll(Push(history, c), rest);
        LastN(Push(history, c) + rest, HistoryCap);
        LastN(LastN(history + [c], HistoryCap) + rest, HistoryCap);
        { LastNOfAppend(history + [c], rest, HistoryCap); }
        LastN(history + [c] + rest, HistoryCap);
        { assert history + [c] + rest == history + centers; }
        LastN(history + centers, HistoryCap);
      }
    }
  }

  /** Until the cap is reached, the history started from empty is the arrival sequence itself. */
  lemma {:induction false} PushAllFromEmpty(centers: seq<real>)
    requires |centers| <= HistoryCap
    ensures PushAll([], centers) == centers
  {
    PushAllIsWindow([], centers);
    assert [] + centers == centers;
  }

  /** Appending never shrinks a history that is within the cap, and keeps it within the cap. */
  lemma PushGrows(history: seq<real>, center: real)
    requires |history| <= HistoryCap
    ensures |history| <= |Push(history, center)| <= HistoryCap
    ensures Push(history, center)[|Push(history, center)| - 1] == center
  {
  }
}
