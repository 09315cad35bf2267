/** The trickle timer of os/lib/trickle-timer.c, with error checking and drift compensation on, against
    section 4.2 of RFC 6206.  The clock is 16 or 32 bits wide and wraps; ghost fields keep the time that
    its readings stand for. */
module TrickleTimer {
  import opened Common
  import opened Bits
  import opened TrickleImax

  const STOPPED := 0

  // ---------------------------------------------------------------------------------------------
  // Clock arithmetic

  /** What a clock with a range of `2 * half` ticks shows. */
  function Clock(time: int, half: nat): (r: nat)
    requires half > 0
    ensures r < 2 * half
  {
    time % (2 * half)
  }

  /** Ticks until `target`, both clock readings: a difference of more than half the range means the past. */
  function Delay(target: nat, now: nat, half: nat): nat
    requires half > 0
  {
    var d := Clock(target - now, half);
    if d > (2 * half - 1) / 2 then 0 else d
  }

  lemma ClockDrops(a: int, b: int, half: nat)
    requires half > 0
    ensures Clock(Clock(a, half) + b, half) == Clock(a + b, half)
    ensures Clock(b - Clock(a, half), half) == Clock(b - a, half)
  {
    var m := 2 * half;
    var c := a % m + b;
    DivModParts(a, m);
    DivModParts(c, m);
    assert a + b == (a / m + c / m) * m + c % m;
    ModIsUnique(a + b, m, a / m + c / m, c % m);
    var d := b - a % m;
    DivModParts(d, m);
    assert b - a == (d / m - a / m) * m + d % m;
    ModIsUnique(b - a, m, d / m - a / m, d % m);
  }

  /** The delay is right exactly when the target is not missed by more than half the clock's range,
      whole turns of the clock aside. */
  lemma DelayIsRight(target: nat, now: nat, half: nat)
    requires half > 0 && target < now + half
    ensures Delay(Clock(target, half), Clock(now, half), half) == Max(target, now) - now <==>
            now <= target || Clock(now - target, half) <= half
  {
    hide Clock;
    ClockDrops(target, -(Clock(now, half) as int), half);
    ClockDrops(now, target, half);
    ClockNear(target - now, half);
    ClockNegated(now - target, half);
  }

  lemma DelayAims(target: nat, now: nat, half: nat)
    requires half > 0 && target < now + half
    ensures Aimed(now + Delay(Clock(target, half), Clock(now, half), half), target, now, half)
    ensures Delay(Clock(target, half), Clock(now, half), half) <= half
  {
    DelayIsRight(target, now, half);
  }

  lemma ClockNear(d: int, half: nat)
    requires half > 0
    ensures 0 <= d < 2 * half ==> Clock(d, half) == d
  {
    if 0 <= d < 2 * half {
      ModIsUnique(d, 2 * half, 0, d);
    }
  }

  lemma ClockNegated(d: int, half: nat)
    requires half > 0
    ensures Clock(-d, half) == if Clock(d, half) == 0 then 0 else 2 * half - Clock(d, half)
  {
    var m := 2 * half;
    DivModParts(d, m);
    if d % m == 0 {
      assert -d == (-(d / m)) * m + 0;
      ModIsUnique(-d, m, -(d / m), 0);
    } else {
      assert -d == (-(d / m) - 1) * m + (m - d % m);
      ModIsUnique(-d, m, -(d / m) - 1, m - d % m);
    }
  }

  // ---------------------------------------------------------------------------------------------
  // The timer

  /** `get_t`: a point in the second half of the interval. */
  function GetT(iCur: nat, rand: nat): (t: nat)
    requires iCur >= 2
    ensures iCur / 2 <= t < iCur
  {
    iCur / 2 + rand % (iCur / 2)
  }

  /** The points that some draw gives are those from half the interval to twice that half. */
  lemma GetTReaches(iCur: nat, t: nat)
    requires iCur >= 2
    ensures (exists rand: nat :: GetT(iCur, rand) == t) <==> iCur / 2 <= t < iCur / 2 + iCur / 2
  {
    if iCur / 2 <= t < iCur / 2 + iCur / 2 {
      RemainderOfLess(t - iCur / 2, iCur / 2);
      assert GetT(iCur, t - iCur / 2) == t;
    }
    forall rand: nat
      ensures iCur / 2 <= GetT(iCur, rand) < iCur / 2 + iCur / 2
    {
      DivModParts(rand, iCur / 2);
    }
  }

  lemma RemainderOfLess(x: nat, d: nat)
    requires x < d
    ensures x % d == x
  {
    ModIsUnique(x, d, 0, x);
  }

  /** The length of the first interval. */
  function FirstLength(iMin: nat, iMaxAbs: nat, rand: nat): nat
    requires iMin <= iMaxAbs
  {
    iMin + rand % (iMaxAbs - iMin + 1)
  }

  /** Some draw gives each length from the smallest to the largest. */
  lemma FirstLengthReaches(iMin: nat, iMaxAbs: nat, length: nat)
    requires iMin <= iMaxAbs
    ensures (exists rand: nat :: FirstLength(iMin, iMaxAbs, rand) == length) <==> iMin <= length <= iMaxAbs
  {
    if iMin <= length <= iMaxAbs {
      RemainderOfLess(length - iMin, iMaxAbs - iMin + 1);
      assert FirstLength(iMin, iMaxAbs, length - iMin) == length;
    }
    forall rand: nat
      ensures iMin <= FirstLength(iMin, iMaxAbs, rand) <= iMaxAbs
    {
      FirstLengthFits(iMin, iMaxAbs, rand);
    }
  }

  lemma FirstLengthFits(iMin: nat, iMaxAbs: nat, rand: nat)
    requires iMin <= iMaxAbs
    ensures iMin <= FirstLength(iMin, iMaxAbs, rand) <= iMaxAbs
  {
    DivModParts(rand, iMaxAbs - iMin + 1);
  }

  /** `i << n`, before it is cut to the width of the clock. */
  function Shifted(i: nat, n: nat): nat { i * Pow2(n) }

  /** The length of the interval that follows one of length `i`. */
  function Doubled(i: nat, iMaxAbs: nat): nat {
    Min(2 * i, iMaxAbs)
  }

  datatype Callback = NoCallback | Fire | DoubleInterval

  datatype Params = Params(iMin: nat, iMaxAbs: nat, half: nat, k: nat)

  /** A running timer in the time that its clock readings stand for: when the interval began, its length,
      the point chosen within it, when the ctimer expires and for what, and the consistent messages heard. */
  datatype View = View(start: nat, length: nat, point: nat, due: nat, callback: Callback, heard: nat) {
    function End(): nat { start + length }
  }

  /** The ctimer goes off in time, if the clock can still tell that it is late. */
  ghost predicate Aimed(due: nat, target: nat, now: nat, half: nat)
    requires half > 0
  {
    && due >= target
    && (due == Max(target, now) <==> now <= target || Clock(now - target, half) <= half)
  }

  ghost predicate Sound(p: Params, s: View) {
    && p.half > 0 && p.iMin >= 2
    && p.iMin <= s.length <= p.iMaxAbs <= p.half
    && s.length / 2 <= s.point < s.length
    && s.callback != NoCallback
    && s.due >= s.start + (if s.callback == Fire then s.point else s.length)
  }

  ghost predicate FireStep(p: Params, s: View, now: nat, s': View) {
    && s.callback == Fire && now >= s.due && p.half > 0
    && s' == s.(callback := DoubleInterval, due := s'.due)
    && Aimed(s'.due, s.End(), now, p.half)
  }

  ghost predicate EndStep(p: Params, s: View, now: nat, s': View) {
    && s.callback == DoubleInterval && now >= s.due && p.half > 0
    && s'.start == s.End() && s'.length == Doubled(s.length, p.iMaxAbs)
    && s'.length / 2 <= s'.point < s'.length
    && s'.callback == Fire && s'.heard == 0
    && Aimed(s'.due, s'.start + s'.point, now, p.half)
  }

  ghost predicate HearStep(s: View, s': View) {
    s' == s.(heard := s.heard + 1)
  }

  ghost predicate ResetStep(p: Params, s: View, now: nat, s': View) {
    if s.length == p.iMin then s' == s
    else s'.length == p.iMin && Begun(s', now)
  }

  /** An interval that begins now. */
  ghost predicate Begun(s: View, now: nat) {
    && s.start == now && s.callback == Fire && s.heard == 0
    && s.length / 2 <= s.point < s.length && s.due == now + s.point
  }

  class Timer {
    const half: nat          // half the range of clock_time_t
    const width: nat
    var iMin: nat
    var iMax: nat
    var iMaxAbs: nat
    var iCur: nat
    var iStart: nat
    var k: nat
    var c: nat
    // the ctimer
    var callback: Callback
    var ctStart: nat
    var ctInterval: nat
    // the time behind the clock readings
    ghost var start: nat     // when the current interval began
    ghost var t: nat         // the point chosen within it
    ghost var due: nat       // when the ctimer expires
    ghost var heard: nat     // consistent messages in the interval

    ghost predicate Shape()
      reads this
    {
      (width == 16 || width == 32) && half == Pow2(width - 1)
    }

    ghost predicate Configured()
      reads this
    {
      && Shape()
      && 2 <= iMin < half && iMaxAbs == Shifted(iMin, iMax) <= half && iMin <= iMaxAbs
      && 1 <= k < 256
    }

    ghost function Parameters(): Params
      reads this
    {
      Params(iMin, iMaxAbs, half, k)
    }

    ghost function AsView(): View
      reads this
    {
      View(start, iCur, t, due, callback, heard)
    }

    ghost predicate Running()
      reads this
    {
      && Configured() && Sound(Parameters(), AsView())
      && iStart == Clock(start, half)
      && c == Min(heard, 255)
      && ctInterval <= half && Clock(due, half) == Clock(ctStart + ctInterval, half)
    }

    constructor (width: nat)
      requires width == 16 || width == 32
      ensures Shape() && this.width == width && callback == NoCallback && iCur == STOPPED
    {
      this.width := width;
      half := if width == 16 then 0x8000 else 0x8000_0000;
      iMin, iMax, iMaxAbs, iCur, iStart, k, c := 0, 0, 0, STOPPED, 0, 0, 0;
      callback, ctStart, ctInterval := NoCallback, 0, 0;
      new;
      Pow2Values();
    }

    /** `trickle_timer_config`: a timer that runs is stopped, but its ctimer stays set. */
    method Config(newMin: nat, newMax: nat, newK: nat) returns (ok: bool)
      requires Shape()
      requires newMin < 2 * half && newMax < 256 && newK < 256
      modifies this
      ensures ok <==> 2 <= newMin < half && newMax > 0 && newK > 0
      ensures ok ==> Configured() && iMin == newMin && k == newK && iCur == STOPPED
      ensures callback == old(callback) && ctStart == old(ctStart) && ctInterval == old(ctInterval) && due == old(due)
      ensures ok ==> iMax <= newMax && (newMin * Pow2(newMax) <= half <==> iMax == newMax)
      ensures ok && iMax < newMax ==> forall other: nat :: newMin * Pow2(other) <= half <==> other <= iMax
      ensures !ok ==> unchanged(this)
    {
      hide Pow2;
      if newMin < 2 || newMin > (2 * half - 1) / 2 || newMax == 0 || newK == 0 {
        return false;
      }
      var max := newMax;
      BadPairsAreTooLong(newMin, newMax, width);
      PreviousPow2(width);
      if (2 * half - 1) / Pow2(newMax + 1) < newMin - 1 {
        max := MaxImax(newMin, width);
        forall other: nat
          ensures newMin * Pow2(other) <= half <==> other <= max
        {
          LargestImax(newMin, max, other, half);
        }
      }
      TimesMonotone(newMin, 1, Pow2(max));
      ShiftFits(newMin * Pow2(max), half);
      iMin, iMax, iMaxAbs, k := newMin, max, Shifted(newMin, max) % (2 * half), newK;
      iCur := STOPPED;
      return true;
    }

    /** `ctimer_set` */
    method SetTimer(interval: nat, f: Callback, clock: nat, ghost now: nat)
      requires half > 0 && clock == Clock(now, half)
      modifies this`callback, this`ctStart, this`ctInterval, this`due
      ensures callback == f && ctStart == clock && ctInterval == interval && due == now + interval
      ensures Clock(due, half) == Clock(ctStart + ctInterval, half)
    {
      ClockDrops(now, interval, half);
      callback, ctStart, ctInterval, due := f, clock, interval, now + interval;
    }

    /** `new_interval` */
    method NewInterval(rand: nat, clock: nat, ghost now: nat)
      requires Configured() && iMin <= iCur <= iMaxAbs && clock == Clock(now, half)
      modifies this`c, this`t, this`callback, this`ctStart
      modifies this`ctInterval, this`due, this`iStart, this`start, this`heard
      ensures Running() && Begun(AsView(), now) && iCur >= 2 && AsView().point == GetT(iCur, rand)
    {
      hide Clock, Pow2, Shifted, GetT;
      c, heard := 0, 0;
      var point := GetT(iCur, rand);
      SetTimer(point, Fire, clock, now);
      iStart := ctStart;
      start, t := now, point;
    }

    /** `trickle_timer_set` */
    method Set(rand: nat, rand': nat, clock: nat, ghost now: nat)
      requires Configured() && clock == Clock(now, half)
      modifies this`iCur, this`c, this`t, this`callback, this`ctStart
      modifies this`ctInterval, this`due, this`iStart, this`start, this`heard
      ensures Running() && Begun(AsView(), now)
      ensures iMin <= iMaxAbs && iCur >= 2
      ensures AsView().length == FirstLength(iMin, iMaxAbs, rand) && AsView().point == GetT(iCur, rand')
    {
      hide Clock, Pow2, Shifted, GetT, FirstLength;
      FirstLengthFits(iMin, iMaxAbs, rand);
      iCur := FirstLength(iMin, iMaxAbs, rand);
      NewInterval(rand', clock, now);
    }

    /** `trickle_timer_stop` */
    method Stop()
      requires Configured()
      modifies this`callback, this`iCur
      ensures Configured() && callback == NoCallback && iCur == STOPPED
    {
      callback, iCur := NoCallback, STOPPED;
    }

    /** `trickle_timer_consistency` */
    method Consistency()
      requires Running()
      modifies this`c, this`heard
      ensures Running() && HearStep(old(AsView()), AsView())
    {
      hide Clock, Pow2, Shifted;
      heard := heard + 1;
      if c < 0xff {
        c := c + 1;
      }
    }

    /** `trickle_timer_inconsistency` */
    method Inconsistency(rand: nat, clock: nat, ghost now: nat)
      requires Running() && clock == Clock(now, half)
      modifies this`iCur, this`c, this`t, this`callback, this`ctStart
      modifies this`ctInterval, this`due, this`iStart, this`start, this`heard
      ensures Running() && ResetStep(Parameters(), old(AsView()), now, AsView())
      ensures old(iCur) != iMin ==> iCur >= 2 && AsView().point == GetT(iCur, rand)
    {
      hide Clock, Pow2, Shifted, GetT;
      if iCur != iMin {
        iCur := iMin;
        NewInterval(rand, clock, now);
      }
    }

    /** `fire`: with a callback that leaves the timer alone, or stops it. */
    method FireNow(stop: bool, clock: nat, ghost now: nat) returns (allow: bool)
      requires Running() && callback == Fire && now >= due && clock == Clock(now, half)
      modifies this`callback, this`ctStart, this`ctInterval, this`due, this`iCur
      ensures allow <==> old(heard) < k
      ensures !stop ==> Running() && FireStep(Parameters(), old(AsView()), now, AsView())
      ensures stop ==> Configured() && callback == NoCallback && iCur == STOPPED
    {
      hide Clock, Pow2, Shifted;
      allow := k == 0 || c < k;
      if stop {
        Stop();
      }
      if iCur != STOPPED {
        ScheduleForEnd(clock, now);
      }
    }

    /** `schedule_for_end` */
    method ScheduleForEnd(clock: nat, ghost now: nat)
      requires Running() && callback == Fire && now >= due && clock == Clock(now, half)
      modifies this`callback, this`ctStart, this`ctInterval, this`due
      ensures Running() && FireStep(Parameters(), old(AsView()), now, AsView())
    {
      hide Clock, Pow2, Shifted, Delay, Aimed;
      DelayAims(start + iCur, now, half);
      ClockDrops(start, iCur, half);
      SetTimer(Delay(Clock(iStart + iCur, half), clock, half), DoubleInterval, clock, now);
      AimedIsNotEarly(due, start + iCur, now, half);
    }

    method DoubleLength()
      requires half > 0 && iCur <= iMaxAbs <= half
      modifies this`iCur
      ensures iCur == Doubled(old(iCur), iMaxAbs)
    {
      if iCur <= iMaxAbs / 2 {
        ClockNear(2 * iCur, half);
        iCur := Clock(2 * iCur, half);
      } else {
        iCur := iMaxAbs;
      }
    }

    /** `double_interval` */
    method IntervalEnds(rand: nat, clock: nat, ghost now: nat)
      requires Running() && callback == DoubleInterval && now >= due && clock == Clock(now, half)
      modifies this`iCur, this`c, this`t, this`callback, this`ctStart
      modifies this`ctInterval, this`due, this`iStart, this`start, this`heard
      ensures Running() && EndStep(Parameters(), old(AsView()), now, AsView())
      ensures iCur >= 2 && AsView().point == GetT(iCur, rand)
    {
      hide Clock, Pow2, Shifted, Delay, Aimed, GetT, Sound, EndStep, Doubled;
      ghost var s, end := AsView(), start + iCur;
      SoundParts(Parameters(), s);
      c, heard := 0, 0;
      ClockDrops(start, iCur, half);
      var lastEnd := Clock(iStart + iCur, half);
      DoubleLength();
      DoubledStays(s.length, Parameters());
      var point := GetT(iCur, rand);
      AimForPoint(lastEnd, point, clock, end, now);
      iStart := lastEnd;
      start, t := end, point;
      EndStepIsSound(Parameters(), s, now, AsView());
    }

    method AimForPoint(lastEnd: nat, point: nat, clock: nat, ghost end: nat, ghost now: nat)
      requires half > 0 && clock == Clock(now, half) && lastEnd == Clock(end, half) && end + point < now + half
      modifies this`callback, this`ctStart, this`ctInterval, this`due
      ensures callback == Fire && Aimed(due, end + point, now, half)
      ensures ctInterval <= half && Clock(due, half) == Clock(ctStart + ctInterval, half)
    {
      hide Clock, Delay, Aimed;
      ClockDrops(end, point, half);
      DelayAims(end + point, now, half);
      SetTimer(Delay(Clock(lastEnd + point, half), clock, half), Fire, clock, now);
    }
  }

  lemma SoundParts(p: Params, s: View)
    requires Sound(p, s)
    ensures p.half > 0 && p.iMin >= 2 && p.iMin <= s.length <= p.iMaxAbs <= p.half
    ensures s.callback == DoubleInterval ==> s.due >= s.End()
  {
  }

  lemma DoubledStays(i: nat, p: Params)
    requires p.iMin <= i <= p.iMaxAbs
    ensures p.iMin <= Doubled(i, p.iMaxAbs) <= p.iMaxAbs
  {
  }

  lemma EndStepIsSound(p: Params, s: View, now: nat, s': View)
    requires Sound(p, s) && s.callback == DoubleInterval && now >= s.due
    requires s'.start == s.End() && s'.length == Doubled(s.length, p.iMaxAbs)
    requires s'.length / 2 <= s'.point < s'.length && s'.callback == Fire && s'.heard == 0
    requires Aimed(s'.due, s'.start + s'.point, now, p.half)
    ensures EndStep(p, s, now, s') && Sound(p, s')
  {
    hide Clock;
  }

  lemma AimedIsNotEarly(due: nat, target: nat, now: nat, half: nat)
    requires half > 0 && Aimed(due, target, now, half)
    ensures due >= target
  {
  }

  // ---------------------------------------------------------------------------------------------
  // Runs

  /** What happens to a timer that is left to run: messages are heard, callbacks come no earlier than due. */
  ghost predicate QuietStep(p: Params, s: View, s': View) {
    HearStep(s, s') || exists now :: FireStep(p, s, now, s') || EndStep(p, s, now, s')
  }

  ghost predicate Step(p: Params, s: View, s': View) {
    QuietStep(p, s, s') || exists now :: ResetStep(p, s, now, s')
  }

  ghost predicate IsRun(p: Params, run: seq<View>) {
    && |run| > 0 && Sound(p, run[0])
    && forall i :: 0 < i < |run| ==> Step(p, run[i - 1], run[i])
  }

  ghost predicate IsQuietRun(p: Params, run: seq<View>) {
    && |run| > 0 && Sound(p, run[0])
    && forall i :: 0 < i < |run| ==> QuietStep(p, run[i - 1], run[i])
  }

  lemma StepKeepsSound(p: Params, s: View, s': View)
    requires Sound(p, s) && Step(p, s, s')
    ensures Sound(p, s')
  {
    hide Clock;
  }

  /** In every state of every run Imin <= I <= Imax, the point is in the second half, and nothing goes off early. */
  lemma {:induction false} RunKeepsBounds(p: Params, run: seq<View>, n: nat)
    requires IsRun(p, run) && n < |run|
    ensures Sound(p, run[n])
  {
    hide Sound, Step;
    if n > 0 {
      RunKeepsBounds(p, run, n - 1);
      StepKeepsSound(p, run[n - 1], run[n]);
    }
  }

  /** The interval ends in a run. */
  function Ends(run: seq<View>): (n: nat) {
    if |run| < 2 then 0
    else
      var last := |run| - 1;
      Ends(run[..last]) + if run[last - 1].callback == DoubleInterval && run[last].callback == Fire then 1 else 0
  }

  /** The length of an interval of length `i` after `n` interval ends. */
  function Grown(i: nat, n: nat, iMaxAbs: nat): nat {
    Min(i * Pow2(n), iMaxAbs)
  }

  /** `n` intervals one after the other, the first of length `i`. */
  function Covered(i: nat, n: nat, iMaxAbs: nat): nat {
    if n == 0 then 0 else Covered(i, n - 1, iMaxAbs) + Grown(i, n - 1, iMaxAbs)
  }

  lemma GrownOnce(i: nat, n: nat, iMaxAbs: nat)
    ensures Doubled(Grown(i, n, iMaxAbs), iMaxAbs) == Grown(i, n + 1, iMaxAbs)
  {
    assert i * Pow2(n + 1) == 2 * (i * Pow2(n));
  }

  /** `s` is the `n`-th interval after `first`. */
  ghost predicate Tiled(p: Params, first: View, s: View, n: nat) {
    s.length == Grown(first.length, n, p.iMaxAbs) && s.start == first.start + Covered(first.length, n, p.iMaxAbs)
  }

  lemma StepKeepsTiled(p: Params, first: View, s: View, s': View, n: nat)
    requires Tiled(p, first, s, n) && QuietStep(p, s, s')
    ensures Tiled(p, first, s', if s.callback == DoubleInterval && s'.callback == Fire then n + 1 else n)
  {
    hide Grown, Aimed;
    GrownOnce(first.length, n, p.iMaxAbs);
  }

  lemma PrefixIsQuiet(p: Params, run: seq<View>)
    requires IsQuietRun(p, run) && |run| > 1
    ensures IsQuietRun(p, run[..|run| - 1]) && QuietStep(p, run[|run| - 2], run[|run| - 1])
  {
    hide Sound, QuietStep;
    var front, last := run[..|run| - 1], |run| - 1;
    assert QuietStep(p, run[last - 1], run[last]);
    forall i | 0 < i < |front|
      ensures QuietStep(p, front[i - 1], front[i])
    {
      assert QuietStep(p, run[i - 1], run[i]);
    }
  }

  /** While a timer is left to run its intervals lie end to end, and each is twice the one before, up to the largest. */
  lemma {:induction false} IntervalsTile(p: Params, run: seq<View>)
    requires IsQuietRun(p, run)
    ensures Tiled(p, run[0], run[|run| - 1], Ends(run))
    decreases |run|
  {
    hide Tiled, IsQuietRun;
    NotEmpty(p, run);
    if |run| == 1 {
      NotGrown(p, run[0]);
    } else {
      var last := |run| - 1;
      PrefixIsQuiet(p, run);
      IntervalsTile(p, run[..last]);
      StepKeepsTiled(p, run[0], run[last - 1], run[last], Ends(run[..last]));
    }
  }

  lemma NotEmpty(p: Params, run: seq<View>)
    requires IsQuietRun(p, run)
    ensures |run| > 0 && Sound(p, run[0])
  {
  }

  lemma NotGrown(p: Params, s: View)
    requires Sound(p, s)
    ensures Grown(s.length, 0, p.iMaxAbs) == s.length && Tiled(p, s, s, 0)
  {
  }

  /** From Imin the interval doubles Imax times and then stays. */
  lemma DoublingsAfterReset(p: Params, run: seq<View>, iMax: nat)
    requires IsQuietRun(p, run) && run[0].length == p.iMin && p.iMaxAbs == p.iMin * Pow2(iMax)
    ensures run[|run| - 1].length == p.iMin * Pow2(Min(Ends(run), iMax))
  {
    IntervalsTile(p, run);
    var n := Ends(run);
    if n <= iMax {
      Pow2Monotone(n, iMax);
      TimesMonotone(p.iMin, Pow2(n), Pow2(iMax));
    } else {
      Pow2Monotone(iMax, n);
      TimesMonotone(p.iMin, Pow2(iMax), Pow2(n));
    }
  }

  ghost predicate OnSchedule(s: View) {
    s.due == s.start + if s.callback == Fire then s.point else s.length
  }

  /** Callbacks that come when they are due keep the schedule exact: the protocol is called at the chosen
      point of each interval, and the interval ends after its length. */
  lemma PunctualStaysOnSchedule(p: Params, s: View, s': View)
    requires Sound(p, s) && OnSchedule(s)
    requires HearStep(s, s') || FireStep(p, s, s.due, s') || EndStep(p, s, s.due, s')
    ensures OnSchedule(s')
  {
    hide Clock;
  }

  lemma ShiftFits(x: nat, half: nat)
    requires x <= half && half > 0
    ensures x % (2 * half) == x
  {
    ModIsUnique(x, 2 * half, 0, x);
  }
}
