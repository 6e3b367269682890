/**
 * Resolution of a pointer's x pixel to the nearest category: the recursive
 * `binarySearch` the three plugin variants share, with the best (smallest
 * distance) candidate carried along the search path.
 */
module NearestIndex {
  import opened JsValues

  /** `Math.abs(x - c)`. */
  function Dist(x: int, c: int): nat {
    if x < c then c - x else x - c
  }

  /** The category pixels are laid out left to right. */
  ghost predicate Sorted(coords: seq<int>) {
    forall i, j :: 0 <= i <= j < |coords| ==> coords[i] <= coords[j]
  }

  /** `i` is a category whose pixel is at least as close to `x` as every other one. */
  ghost predicate Nearest(coords: seq<int>, x: int, i: nat) {
    i < |coords| && forall j :: 0 <= j < |coords| ==> Dist(x, coords[i]) <= Dist(x, coords[j])
  }

  ghost predicate InRange(coords: seq<int>, best: Option<nat>) {
    best.Some? ==> best.value < |coords|
  }

  /**
   * One call of `binarySearch(value, start, end, minDistanceIndex)` on the
   * window [lo, hi]: probe the middle, return it on an exact hit, replace the
   * best candidate only on a strictly smaller distance, and recurse into the
   * half that lies towards `x`.
   */
  function Step(coords: seq<int>, x: int, lo: int, hi: int, best: Option<nat>): (r: Option<nat>)
    requires 0 <= lo && hi < |coords| && InRange(coords, best)
    ensures InRange(coords, r)
    ensures best.Some? || lo <= hi ==> r.Some?
    ensures r.None? ==> r == best
    decreases hi - lo
  {
    if lo > hi then best
    else
      var mid := (lo + hi) / 2;
      var distance := Dist(x, coords[mid]);
      if distance == 0 then Some(mid)
      else
        var best' := if best.None? || distance < Dist(x, coords[best.value]) then Some(mid) else best;
        if x < coords[mid] then Step(coords, x, lo, mid - 1, best')
        else Step(coords, x, mid + 1, hi, best')
  }

  /** `binarySearch(x)`: the search over the whole axis with no candidate yet; `None` is `undefined`. */
  function BinarySearch(coords: seq<int>, x: int): (r: Option<nat>)
    ensures r.None? <==> |coords| == 0
    ensures r.Some? ==> r.value < |coords|
  {
    Step(coords, x, 0, |coords| - 1, None)
  }

  /** The indices `Step` probes, in order; the sequence stops at an exact hit. */
  function Probes(coords: seq<int>, x: int, lo: int, hi: int): (p: seq<nat>)
    requires 0 <= lo && hi < |coords|
    ensures forall k :: 0 <= k < |p| ==> lo <= p[k] <= hi
    decreases hi - lo
  {
    if lo > hi then []
    else
      var mid := (lo + hi) / 2;
      if coords[mid] == x then [mid]
      else if x < coords[mid] then [mid] + Probes(coords, x, lo, mid - 1)
      else [mid] + Probes(coords, x, mid + 1, hi)
  }

  /** The probe path of `BinarySearch(coords, x)`. */
  function ProbePath(coords: seq<int>, x: int): (p: seq<nat>)
    ensures forall k :: 0 <= k < |p| ==> p[k] < |coords|
    ensures |coords| > 0 ==> |p| > 0
  {
    Probes(coords, x, 0, |coords| - 1)
  }

  // ---------------------------------------------------------------------------
  // The result is a nearest category
  // ---------------------------------------------------------------------------

  /** The search invariant: every index outside the window is no closer than the best candidate. */
  ghost predicate OutsideNoCloser(coords: seq<int>, x: int, lo: int, hi: int, b: nat)
    requires b < |coords|
  {
    forall j :: 0 <= j < |coords| && !(lo <= j <= hi) ==> Dist(x, coords[b]) <= Dist(x, coords[j])
  }

  /** Left of `x`, a category further left is no closer; right of `x`, one further right is no closer. */
  lemma MonotoneDistance(coords: seq<int>, x: int, mid: nat)
    requires Sorted(coords) && mid < |coords|
    ensures x < coords[mid] ==> forall j :: mid <= j < |coords| ==> Dist(x, coords[mid]) <= Dist(x, coords[j])
    ensures coords[mid] < x ==> forall j :: 0 <= j <= mid ==> Dist(x, coords[mid]) <= Dist(x, coords[j])
  {
  }

  /** Narrowing the window keeps the invariant when the discarded indices are no closer than the probe. */
  lemma Narrowed(coords: seq<int>, x: int, lo: int, hi: int, lo': int, hi': int, best: Option<nat>, b: nat, mid: nat)
    requires b < |coords| && mid < |coords| && InRange(coords, best)
    requires Dist(x, coords[b]) <= Dist(x, coords[mid])
    requires best.Some? ==> Dist(x, coords[b]) <= Dist(x, coords[best.value]) && OutsideNoCloser(coords, x, lo, hi, best.value)
    requires best.None? ==> lo == 0 && hi == |coords| - 1
    requires forall j :: lo <= j <= hi && !(lo' <= j <= hi') && 0 <= j < |coords| ==> Dist(x, coords[mid]) <= Dist(x, coords[j])
    ensures OutsideNoCloser(coords, x, lo', hi', b)
  {
  }

  /** A window that closed with every index no closer than the candidate leaves a nearest candidate. */
  lemma ClosedWindow(coords: seq<int>, x: int, lo: int, hi: int, b: nat)
    requires b < |coords| && hi < lo && OutsideNoCloser(coords, x, lo, hi, b)
    ensures Nearest(coords, x, b)
  {
  }

  /**
   * One call of `Step` whose probe misses `x`: the result is that of the next
   * call, on the half towards `x`, with the candidate replaced only when the
   * probe is strictly closer.
   */
  lemma StepOnMiss(coords: seq<int>, x: int, lo: int, hi: int, best: Option<nat>)
    returns (lo': int, hi': int, best': Option<nat>)
    requires 0 <= lo <= hi < |coords| && InRange(coords, best)
    requires coords[(lo + hi) / 2] != x
    ensures var mid := (lo + hi) / 2;
      && best' == (if best.None? || Dist(x, coords[mid]) < Dist(x, coords[best.value]) then Some(mid) else best)
      && (x < coords[mid] ==> lo' == lo && hi' == mid - 1)
      && (coords[mid] < x ==> lo' == mid + 1 && hi' == hi)
    ensures Step(coords, x, lo, hi, best) == Step(coords, x, lo', hi', best')
  {
    var mid := (lo + hi) / 2;
    best' := if best.None? || Dist(x, coords[mid]) < Dist(x, coords[best.value]) then Some(mid) else best;
    if x < coords[mid] {
      lo', hi' := lo, mid - 1;
    } else {
      lo', hi' := mid + 1, hi;
    }
  }

  /**
   * One probe that misses `x` on a sorted axis: the search continues on a
   * smaller window whose outside is no closer than the new candidate.
   */
  lemma NearestStep(coords: seq<int>, x: int, lo: int, hi: int, best: Option<nat>)
    returns (lo': int, hi': int, best': Option<nat>)
    requires Sorted(coords)
    requires 0 <= lo <= hi < |coords| && InRange(coords, best)
    requires best.None? ==> lo == 0 && hi == |coords| - 1
    requires best.Some? ==> OutsideNoCloser(coords, x, lo, hi, best.value)
    requires coords[(lo + hi) / 2] != x
    ensures 0 <= lo' <= hi' + 1 && hi' < |coords| && hi' - lo' < hi - lo
    ensures best'.Some? && best'.value < |coords| && OutsideNoCloser(coords, x, lo', hi', best'.value)
    ensures Step(coords, x, lo, hi, best) == Step(coords, x, lo', hi', best')
  {
    var mid := (lo + hi) / 2;
    lo', hi', best' := StepOnMiss(coords, x, lo, hi, best);
    MonotoneDistance(coords, x, mid);
    Narrowed(coords, x, lo, hi, lo', hi', best, best'.value, mid);
  }

  lemma {:induction false} StepNearest(coords: seq<int>, x: int, lo: int, hi: int, best: Option<nat>)
    requires Sorted(coords)
    requires 0 <= lo <= hi + 1 && hi < |coords| && InRange(coords, best)
    requires best.None? ==> lo == 0 && hi == |coords| - 1
    requires best.Some? ==> OutsideNoCloser(coords, x, lo, hi, best.value)
    requires |coords| > 0
    ensures Step(coords, x, lo, hi, best).Some?
    ensures Nearest(coords, x, Step(coords, x, lo, hi, best).value)
    decreases hi - lo
  {
    if lo > hi {
      ClosedWindow(coords, x, lo, hi, best.value);
    } else if coords[(lo + hi) / 2] != x {
      var lo', hi', best' := NearestStep(coords, x, lo, hi, best);
      StepNearest(coords, x, lo', hi', best');
    }
  }

  /**
   * On a non-empty sorted axis the search returns an in-range category whose
   * pixel is nearest to `x`; so a pointer left of the first or right of the
   * last category resolves to that boundary category.
   */
  lemma SearchFindsNearest(coords: seq<int>, x: int)
    requires Sorted(coords) && |coords| > 0
    ensures BinarySearch(coords, x).Some?
    ensures Nearest(coords, x, BinarySearch(coords, x).value)
    ensures x <= coords[0] ==> coords[BinarySearch(coords, x).value] == coords[0]
    ensures coords[|coords| - 1] <= x ==> coords[BinarySearch(coords, x).value] == coords[|coords| - 1]
  {
    StepNearest(coords, x, 0, |coords| - 1, None);
    var r := BinarySearch(coords, x).value;
    assert coords[0] <= coords[r] <= coords[|coords| - 1];
  }

  /** The probe list is non-empty and its last probe lands exactly on `x`. */
  ghost predicate EndsOnHit(coords: seq<int>, x: int, p: seq<nat>) {
    |p| > 0 && p[|p| - 1] < |coords| && coords[p[|p| - 1]] == x
  }

  /** The probes of a window whose middle misses `x`: that probe, then the probes of the half towards `x`. */
  lemma ProbesOnMiss(coords: seq<int>, x: int, lo: int, hi: int, lo': int, hi': int)
    requires 0 <= lo <= hi < |coords| && coords[(lo + hi) / 2] != x
    requires x < coords[(lo + hi) / 2] ==> lo' == lo && hi' == (lo + hi) / 2 - 1
    requires coords[(lo + hi) / 2] < x ==> lo' == (lo + hi) / 2 + 1 && hi' == hi
    ensures 0 <= lo' && hi' < |coords| && hi' - lo' < hi - lo
    ensures Probes(coords, x, lo, hi) == [(lo + hi) / 2] + Probes(coords, x, lo', hi')
  {
  }

  /** A probe list stops at the first exact hit: no probe before the last one lands on `x`. */
  lemma {:induction false} NoEarlierHit(coords: seq<int>, x: int, lo: int, hi: int)
    requires 0 <= lo && hi < |coords|
    ensures forall k :: 0 <= k < |Probes(coords, x, lo, hi)| - 1 ==> coords[Probes(coords, x, lo, hi)[k]] != x
    decreases hi - lo
  {
    if lo <= hi {
      var mid := (lo + hi) / 2;
      if coords[mid] != x {
        var lo' := if x < coords[mid] then lo else mid + 1;
        var hi' := if x < coords[mid] then mid - 1 else hi;
        ProbesOnMiss(coords, x, lo, hi, lo', hi');
        NoEarlierHit(coords, x, lo', hi');
      }
    }
  }

  /**
   * One step of a search window whose middle probe misses `x`: the probe list
   * is that probe followed by the probes of the half searched next, and the
   * result is that of the half, entered with a candidate that misses `x` too.
   */
  lemma MissStep(coords: seq<int>, x: int, lo: int, hi: int, best: Option<nat>)
    returns (lo': int, hi': int, best': Option<nat>)
    requires 0 <= lo <= hi < |coords| && InRange(coords, best)
    requires best.Some? ==> coords[best.value] != x
    requires coords[(lo + hi) / 2] != x
    ensures 0 <= lo' && hi' < |coords| && hi' - lo' < hi - lo && InRange(coords, best')
    ensures best'.Some? ==> coords[best'.value] != x
    ensures var mid := (lo + hi) / 2;
      best' == (if best.None? || Dist(x, coords[mid]) < Dist(x, coords[best.value]) then Some(mid) else best)
    ensures Probes(coords, x, lo, hi) == [(lo + hi) / 2] + Probes(coords, x, lo', hi')
    ensures Step(coords, x, lo, hi, best) == Step(coords, x, lo', hi', best')
  {
    lo', hi', best' := StepOnMiss(coords, x, lo, hi, best);
    ProbesOnMiss(coords, x, lo, hi, lo', hi');
  }

  /**
   * The early exit: a search window (entered with a candidate that is not an
   * exact hit) ends on an exact hit exactly when its last probe is one, and
   * then that probe is the result.
   */
  lemma {:induction false} HitEndsSearch(coords: seq<int>, x: int, lo: int, hi: int, best: Option<nat>)
    requires 0 <= lo && hi < |coords| && InRange(coords, best)
    requires best.Some? ==> coords[best.value] != x
    ensures Step(coords, x, lo, hi, best).Some? && coords[Step(coords, x, lo, hi, best).value] == x
            <==> EndsOnHit(coords, x, Probes(coords, x, lo, hi))
    ensures EndsOnHit(coords, x, Probes(coords, x, lo, hi)) ==>
              Step(coords, x, lo, hi, best) == Some(Probes(coords, x, lo, hi)[|Probes(coords, x, lo, hi)| - 1])
    decreases hi - lo
  {
    if lo <= hi {
      var mid := (lo + hi) / 2;
      if coords[mid] == x {
        assert Probes(coords, x, lo, hi) == [mid];
      } else {
        var lo', hi', best' := MissStep(coords, x, lo, hi, best);
        HitEndsSearch(coords, x, lo', hi', best');
        var rest := Probes(coords, x, lo', hi');
        assert EndsOnHit(coords, x, [mid] + rest) <==> EndsOnHit(coords, x, rest);
      }
    }
  }

  /**
   * A pointer exactly on a category pixel resolves to a category at that
   * pixel, and the search stops there: it is the last probe.
   */
  lemma ExactHitFound(coords: seq<int>, x: int, i: nat)
    requires Sorted(coords) && i < |coords| && coords[i] == x
    ensures BinarySearch(coords, x).Some? && coords[BinarySearch(coords, x).value] == x
    ensures |ProbePath(coords, x)| > 0 && BinarySearch(coords, x).value == ProbePath(coords, x)[|ProbePath(coords, x)| - 1]
    ensures forall k :: 0 <= k < |ProbePath(coords, x)| - 1 ==> coords[ProbePath(coords, x)[k]] != x
  {
    HitIsNearest(coords, x, i);
    FoundHitIsLastProbe(coords, x);
  }

  /** On a sorted axis, a pointer on a pixel resolves to a category at that pixel. */
  lemma HitIsNearest(coords: seq<int>, x: int, i: nat)
    requires Sorted(coords) && i < |coords| && coords[i] == x
    ensures BinarySearch(coords, x).Some? && coords[BinarySearch(coords, x).value] == x
  {
    SearchFindsNearest(coords, x);
    assert Dist(x, coords[i]) == 0;
  }

  /** A search that returns an exact hit returned its last probe, and no earlier probe was a hit. */
  lemma FoundHitIsLastProbe(coords: seq<int>, x: int)
    requires BinarySearch(coords, x).Some? && coords[BinarySearch(coords, x).value] == x
    ensures |ProbePath(coords, x)| > 0 && BinarySearch(coords, x).value == ProbePath(coords, x)[|ProbePath(coords, x)| - 1]
    ensures forall k :: 0 <= k < |ProbePath(coords, x)| - 1 ==> coords[ProbePath(coords, x)[k]] != x
  {
    HitEndsSearch(coords, x, 0, |coords| - 1, None);
    NoEarlierHit(coords, x, 0, |coords| - 1);
  }


  // ---------------------------------------------------------------------------
  // Tie-break: the earliest probe among the nearest ones wins
  // ---------------------------------------------------------------------------

  /**
   * `r` occurs in the probe list `q`, no probe is closer to `x`, and every probe
   * before the first occurrence of `r` is strictly farther away.
   */
  ghost predicate FirstClosest(coords: seq<int>, x: int, q: seq<nat>, r: nat)
  {
    && r < |coords|
    && (forall k :: 0 <= k < |q| ==> q[k] < |coords| && Dist(x, coords[r]) <= Dist(x, coords[q[k]]))
    && exists k :: 0 <= k < |q| && q[k] == r &&
         forall k' :: 0 <= k' < k ==> Dist(x, coords[r]) < Dist(x, coords[q[k']])
  }

  function Candidates(best: Option<nat>): seq<nat> {
    if best.Some? then [best.value] else []
  }

  /** Putting a strictly farther probe in front keeps `r` the first closest. */
  lemma ConsFarther(coords: seq<int>, x: int, q: seq<nat>, r: nat, a: nat)
    requires FirstClosest(coords, x, q, r) && a < |coords|
    requires Dist(x, coords[r]) < Dist(x, coords[a])
    ensures FirstClosest(coords, x, [a] + q, r)
  {
    var k :| 0 <= k < |q| && q[k] == r && forall k' :: 0 <= k' < k ==> Dist(x, coords[r]) < Dist(x, coords[q[k']]);
    var q' := [a] + q;
    assert q'[k + 1] == r;
    forall k' | 0 <= k' < k + 1 ensures Dist(x, coords[r]) < Dist(x, coords[q'[k']]) {
      if k' > 0 { assert q'[k'] == q[k' - 1]; }
    }
  }

  /** Inserting, right after the head, a probe no closer than the head keeps `r` the first closest. */
  lemma InsertNoCloser(coords: seq<int>, x: int, b: nat, rest: seq<nat>, r: nat, a: nat)
    requires FirstClosest(coords, x, [b] + rest, r) && a < |coords| && b < |coords|
    requires Dist(x, coords[b]) <= Dist(x, coords[a])
    ensures FirstClosest(coords, x, [b, a] + rest, r)
  {
    var q := [b] + rest;
    var q' := [b, a] + rest;
    var k :| 0 <= k < |q| && q[k] == r && forall k' :: 0 <= k' < k ==> Dist(x, coords[r]) < Dist(x, coords[q[k']]);
    assert Dist(x, coords[r]) <= Dist(x, coords[q[0]]);
    forall j | 0 <= j < |q'| ensures q'[j] < |coords| && Dist(x, coords[r]) <= Dist(x, coords[q'[j]]) {
      if j > 1 { assert q'[j] == q[j - 1]; }
    }
    if k == 0 {
      assert q'[0] == r;
    } else {
      assert q'[k + 1] == r;
      forall k' | 0 <= k' < k + 1 ensures Dist(x, coords[r]) < Dist(x, coords[q'[k']]) {
        if k' > 1 { assert q'[k'] == q[k' - 1]; }
      }
    }
  }

  lemma {:induction false} StepFirstClosest(coords: seq<int>, x: int, lo: int, hi: int, best: Option<nat>)
    requires 0 <= lo && hi < |coords| && InRange(coords, best)
    requires best.Some? ==> Dist(x, coords[best.value]) > 0
    requires best.Some? || lo <= hi
    ensures Step(coords, x, lo, hi, best).Some?
    ensures FirstClosest(coords, x, Candidates(best) + Probes(coords, x, lo, hi), Step(coords, x, lo, hi, best).value)
    decreases hi - lo
  {
    var q := Candidates(best) + Probes(coords, x, lo, hi);
    var r := Step(coords, x, lo, hi, best).value;
    if lo > hi {
      assert q == [best.value];
      assert q[0] == r;
    } else {
      var mid := (lo + hi) / 2;
      if coords[mid] == x {
        assert Probes(coords, x, lo, hi) == [mid];
        assert r == mid;
        assert q[|q| - 1] == r;
      } else {
        var lo', hi', best' := MissStep(coords, x, lo, hi, best);
        StepFirstClosest(coords, x, lo', hi', best');
        FirstClosestAfterProbe(coords, x, best, mid, Probes(coords, x, lo', hi'), r);
      }
    }
  }

  /** One probe step: the candidate update of `Step` preserves "first closest" for the probe list. */
  lemma FirstClosestAfterProbe(coords: seq<int>, x: int, best: Option<nat>, mid: nat, rest: seq<nat>, r: nat)
    requires InRange(coords, best) && mid < |coords| && Dist(x, coords[mid]) > 0
    requires best.Some? ==> Dist(x, coords[best.value]) > 0
    requires
      var best' := if best.None? || Dist(x, coords[mid]) < Dist(x, coords[best.value]) then Some(mid) else best;
      FirstClosest(coords, x, [best'.value] + rest, r)
    ensures FirstClosest(coords, x, Candidates(best) + ([mid] + rest), r)
  {
    if best.None? {
      assert Candidates(best) + ([mid] + rest) == [mid] + rest;
    } else {
      var b := best.value;
      assert Candidates(best) + ([mid] + rest) == [b, mid] + rest;
      if Dist(x, coords[mid]) < Dist(x, coords[b]) {
        assert Dist(x, coords[r]) <= Dist(x, coords[([mid] + rest)[0]]);
        ConsFarther(coords, x, [mid] + rest, r, b);
        assert [b] + ([mid] + rest) == [b, mid] + rest;
      } else {
        InsertNoCloser(coords, x, b, rest, r, mid);
      }
    }
  }

  /**
   * Among the probed categories the search returns the first one at the
   * smallest distance: a later probe replaces the candidate only when it is
   * strictly closer, so on a tie the earlier-probed category is kept.
   */
  lemma SearchKeepsEarliestProbe(coords: seq<int>, x: int)
    requires |coords| > 0
    ensures BinarySearch(coords, x).Some?
    ensures FirstClosest(coords, x, ProbePath(coords, x), BinarySearch(coords, x).value)
  {
    StepFirstClosest(coords, x, 0, |coords| - 1, None);
    assert Candidates(None) + ProbePath(coords, x) == ProbePath(coords, x);
  }

  // ---------------------------------------------------------------------------
  // The categories on either side of the pointer are probed
  // ---------------------------------------------------------------------------

  /** Category `j` lies left of `x`. */
  ghost predicate LeftOf(coords: seq<int>, x: int, j: int) {
    0 <= j < |coords| && coords[j] < x
  }

  /** Category `j` lies right of `x`. */
  ghost predicate RightOf(coords: seq<int>, x: int, j: int) {
    0 <= j < |coords| && x < coords[j]
  }

  /**
   * Index `v` is among the probes of the window [lo, hi], decided probe by
   * probe without building the list; `ProbedIsProbe` and `ProbeIsProbed`
   * show that it agrees with membership in `Probes`.
   */
  ghost predicate Probed(coords: seq<int>, x: int, lo: int, hi: int, v: int)
    requires 0 <= lo && hi < |coords|
    decreases hi - lo
  {
    if lo > hi then false
    else
      var mid := (lo + hi) / 2;
      if v == mid then true
      else if coords[mid] == x then false
      else if x < coords[mid] then Probed(coords, x, lo, mid - 1, v)
      else Probed(coords, x, mid + 1, hi, v)
  }

  lemma {:induction false} ProbedIsProbe(coords: seq<int>, x: int, lo: int, hi: int, v: int)
    requires 0 <= lo && hi < |coords|
    ensures Probed(coords, x, lo, hi, v) ==> v in Probes(coords, x, lo, hi)
    decreases hi - lo
  {
    if lo <= hi {
      var mid := (lo + hi) / 2;
      if v != mid && coords[mid] != x {
        var lo', hi' := if x < coords[mid] then lo else mid + 1, if x < coords[mid] then mid - 1 else hi;
        ProbedIsProbe(coords, x, lo', hi', v);
        if Probed(coords, x, lo', hi', v) {
          assert Probes(coords, x, lo, hi)[1..] == Probes(coords, x, lo', hi');
        }
      }
    }
  }

  lemma {:induction false} ProbeIsProbed(coords: seq<int>, x: int, lo: int, hi: int, v: int)
    requires 0 <= lo && hi < |coords|
    requires v in Probes(coords, x, lo, hi)
    ensures Probed(coords, x, lo, hi, v)
    decreases hi - lo
  {
    var p := Probes(coords, x, lo, hi);
    var mid := (lo + hi) / 2;
    if v != mid {
      TailMember(p, v);
      var lo', hi' := if x < coords[mid] then lo else mid + 1, if x < coords[mid] then mid - 1 else hi;
      assert p[1..] == Probes(coords, x, lo', hi');
      ProbeIsProbed(coords, x, lo', hi', v);
    }
  }

  /** A value other than the head of a list is in the list exactly when it is in the tail. */
  lemma TailMember(p: seq<nat>, v: int)
    requires |p| > 0 && v != p[0]
    ensures v in p <==> v in p[1..]
  {
    assert p == [p[0]] + p[1..];
  }

  /**
   * In a window whose indices below `s` lie left of `x` and the others right
   * of it, the last index left of `x` is probed.
   */
  lemma {:induction false} FloorProbed(coords: seq<int>, x: int, lo: int, hi: int, s: int)
    requires 0 <= lo < s <= hi + 1 && hi < |coords|
    requires forall j :: lo <= j < s ==> LeftOf(coords, x, j)
    requires forall j :: s <= j <= hi ==> RightOf(coords, x, j)
    ensures Probed(coords, x, lo, hi, s - 1)
    decreases hi - lo
  {
    var mid := (lo + hi) / 2;
    if s <= mid {
      assert RightOf(coords, x, mid);
      FloorProbed(coords, x, lo, mid - 1, s);
    } else {
      assert LeftOf(coords, x, mid);
      if s - 1 != mid {
        FloorProbed(coords, x, mid + 1, hi, s);
      }
    }
  }

  /** In the same kind of window, the first index right of `x` is probed. */
  lemma {:induction false} CeilingProbed(coords: seq<int>, x: int, lo: int, hi: int, s: int)
    requires 0 <= lo <= s <= hi < |coords|
    requires forall j :: lo <= j < s ==> LeftOf(coords, x, j)
    requires forall j :: s <= j <= hi ==> RightOf(coords, x, j)
    ensures Probed(coords, x, lo, hi, s)
    decreases hi - lo
  {
    var mid := (lo + hi) / 2;
    if s <= mid {
      assert RightOf(coords, x, mid);
      if s != mid {
        CeilingProbed(coords, x, lo, mid - 1, s);
      }
    } else {
      assert LeftOf(coords, x, mid);
      CeilingProbed(coords, x, mid + 1, hi, s);
    }
  }

  /**
   * When the pointer falls strictly between category pixels of a sorted axis,
   * both the category just left of it (its floor) and the one just right of
   * it (its ceiling) lie on the probe path.
   */
  lemma FloorAndCeilingProbed(coords: seq<int>, x: int, k: nat)
    requires Sorted(coords) && k < |coords|
    ensures coords[k] < x && (k + 1 == |coords| || x < coords[k + 1]) ==> k in ProbePath(coords, x)
    ensures x < coords[k] && (k == 0 || coords[k - 1] < x) ==> k in ProbePath(coords, x)
  {
    if coords[k] < x && (k + 1 == |coords| || x < coords[k + 1]) {
      SortedSides(coords, x, k + 1);
      FloorOnPath(coords, x, k + 1);
    }
    if x < coords[k] && (k == 0 || coords[k - 1] < x) {
      SortedSides(coords, x, k);
      CeilingOnPath(coords, x, k);
    }
  }

  /** The last category left of the split point `s` is on the probe path. */
  lemma FloorOnPath(coords: seq<int>, x: int, s: int)
    requires 0 < s <= |coords|
    requires forall j :: 0 <= j < s ==> LeftOf(coords, x, j)
    requires forall j :: s <= j < |coords| ==> RightOf(coords, x, j)
    ensures s - 1 in ProbePath(coords, x)
  {
    FloorProbed(coords, x, 0, |coords| - 1, s);
    ProbedIsProbe(coords, x, 0, |coords| - 1, s - 1);
  }

  /** The first category right of the split point `s` is on the probe path. */
  lemma CeilingOnPath(coords: seq<int>, x: int, s: int)
    requires 0 <= s < |coords|
    requires forall j :: 0 <= j < s ==> LeftOf(coords, x, j)
    requires forall j :: s <= j < |coords| ==> RightOf(coords, x, j)
    ensures s in ProbePath(coords, x)
  {
    CeilingProbed(coords, x, 0, |coords| - 1, s);
    ProbedIsProbe(coords, x, 0, |coords| - 1, s);
  }

  /** On a sorted axis, everything before the first category right of `x` lies left of it. */
  lemma SortedSides(coords: seq<int>, x: int, s: int)
    requires Sorted(coords) && 0 <= s <= |coords|
    requires s > 0 ==> coords[s - 1] < x
    requires s < |coords| ==> x < coords[s]
    ensures forall j :: 0 <= j < s ==> LeftOf(coords, x, j)
    ensures forall j :: s <= j < |coords| ==> RightOf(coords, x, j)
  {
    forall j | 0 <= j < s ensures LeftOf(coords, x, j) {
      assert coords[j] <= coords[s - 1];
    }
    forall j | s <= j < |coords| ensures RightOf(coords, x, j) {
      assert coords[s] <= coords[j];
    }
  }

  // ---------------------------------------------------------------------------
  // Worked examples on the axis [10, 30, 50, 70]
  // ---------------------------------------------------------------------------

  /** 38 is 8 from 30 and 12 from 50; 40 is 10 from both and keeps 30, probed first. */
  lemma FourCategoryExamples()
    ensures BinarySearch([10, 30, 50, 70], 38) == Some(1)
    ensures BinarySearch([10, 30, 50, 70], 40) == Some(1)
    ensures ProbePath([10, 30, 50, 70], 40) == [1, 2]
    ensures BinarySearch([10, 30, 50, 70], 0) == Some(0)
    ensures BinarySearch([10, 30, 50, 70], 100) == Some(3)
  {
    var c := [10, 30, 50, 70];
    assert Step(c, 38, 2, 1, Some(1)) == Some(1);
    assert Step(c, 38, 2, 3, Some(1)) == Some(1);
    assert Step(c, 38, 0, 3, None) == Some(1);
    assert Step(c, 40, 2, 1, Some(1)) == Some(1);
    assert Step(c, 40, 2, 3, Some(1)) == Some(1);
    assert Step(c, 40, 0, 3, None) == Some(1);
    assert Probes(c, 40, 2, 1) == [];
    assert Probes(c, 40, 2, 3) == [2];
    assert Probes(c, 40, 0, 3) == [1, 2];
    assert Step(c, 0, 0, -1, Some(0)) == Some(0);
    assert Step(c, 0, 0, 0, Some(1)) == Some(0);
    assert Step(c, 0, 0, 3, None) == Some(0);
    assert Step(c, 100, 4, 3, Some(3)) == Some(3);
    assert Step(c, 100, 3, 3, Some(2)) == Some(3);
    assert Step(c, 100, 2, 3, Some(1)) == Some(3);
    assert Step(c, 100, 0, 3, None) == Some(3);
  }
}
