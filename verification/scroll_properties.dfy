/** Properties of a scroll cycle: the shape of its event trace, the offsets it
    paints, when and how it ends, and the order of its notifications. */
module ScrollProperties {
  import opened JavaInt
  import opened ScrollCycle

  /** The offset after subtracting `step` from `p` n times in Java arithmetic. */
  function OffsetAfter(p: int32, step: int32, n: nat): (r: int32)
    decreases n
  {
    if n == 0 then p else OffsetAfter(Sub(p, step), step, n - 1)
  }

  /** The render requests of n non-final ticks starting from offset `p`. */
  function Descent(p: int32, step: int32, n: nat): (d: seq<Event>)
    decreases n
  {
    if n == 0 then [] else [Invalidate(Sub(p, step))] + Descent(Sub(p, step), step, n - 1)
  }

  /** The listener callbacks of a trace, render requests dropped. */
  function Notifications(t: seq<Event>): (r: seq<Event>)
    ensures |r| <= |t|
  {
    if |t| == 0 then []
    else if t[0].Invalidate? then Notifications(t[1..])
    else [t[0]] + Notifications(t[1..])
  }

  /** A trace of render requests whose painted offsets strictly decrease. */
  predicate StrictlyDecreasing(t: seq<Event>) {
    forall i, j :: 0 <= i < j < |t| ==> t[i].Invalidate? && t[j].Invalidate? && t[j].offset < t[i].offset
  }

  lemma {:induction false} NotificationsAppend(a: seq<Event>, b: seq<Event>)
    ensures Notifications(a + b) == Notifications(a) + Notifications(b)
    decreases |a|
  {
    if |a| == 0 {
      assert a + b == b;
    } else {
      assert (a + b)[1..] == a[1..] + b;
      NotificationsAppend(a[1..], b);
    }
  }

  lemma {:induction false} DescentLength(p: int32, step: int32, n: nat)
    ensures |Descent(p, step, n)| == n
    decreases n
  {
    if n > 0 {
      DescentLength(Sub(p, step), step, n - 1);
    }
  }

  lemma {:induction false} DescentIsRendersOnly(p: int32, step: int32, n: nat)
    ensures |Descent(p, step, n)| == n
    ensures forall i :: 0 <= i < n ==> Descent(p, step, n)[i].Invalidate?
    ensures Notifications(Descent(p, step, n)) == []
    decreases n
  {
    if n > 0 {
      var rest := Descent(Sub(p, step), step, n - 1);
      DescentIsRendersOnly(Sub(p, step), step, n - 1);
      NotificationsAppend([Invalidate(Sub(p, step))], rest);
    }
  }

  /** The i-th render request of a descent paints the offset after i + 1 ticks. */
  lemma {:induction false} DescentElements(p: int32, step: int32, n: nat)
    ensures |Descent(p, step, n)| == n
    ensures forall i :: 0 <= i < n ==> Descent(p, step, n)[i] == Invalidate(OffsetAfter(p, step, i + 1))
    decreases n
  {
    if n > 0 {
      var q := Sub(p, step);
      DescentElements(q, step, n - 1);
      var d := Descent(p, step, n);
      forall i | 0 <= i < n
        ensures d[i] == Invalidate(OffsetAfter(p, step, i + 1))
      {
        if i > 0 {
          assert d[i] == Descent(q, step, n - 1)[i - 1];
        }
      }
    }
  }

  lemma MulShift(n: int, s: int)
    ensures (n - 1) * s == n * s - s
  {
  }

  lemma MulStrict(i: int, j: int, s: int)
    requires i < j && s > 0
    ensures i * s < j * s
  {
    assert j * s - i * s == (j - i) * s;
  }

  lemma MulAtLeast(k: int, s: int)
    requires k >= 1 && s > 0
    ensures k * s >= s
  {
    assert k * s - s == (k - 1) * s;
  }

  /** Without wrap-around, n decrements of a positive step move the offset by
      exactly n * step. */
  lemma {:induction false} OffsetAfterExact(p: int32, step: int32, n: nat)
    requires step > 0
    requires p - n * step >= MIN_VALUE
    ensures OffsetAfter(p, step, n) == p - n * step
    decreases n
  {
    if n > 0 {
      MulShift(n, step);
      MulStrict(0, n, step);
      assert Sub(p, step) == p - step;
      OffsetAfterExact(Sub(p, step), step, n - 1);
    }
  }

  /** Without wrap-around, the i-th render request of a descent paints
      p - (i+1) * step, so the painted offsets strictly decrease. */
  lemma DescentClosedForm(p: int32, step: int32, n: nat)
    requires step > 0
    requires p - n * step >= MIN_VALUE
    ensures |Descent(p, step, n)| == n
    ensures forall i :: 0 <= i < n ==> Descent(p, step, n)[i] == Invalidate(p - (i + 1) * step)
    ensures StrictlyDecreasing(Descent(p, step, n))
  {
    var d := Descent(p, step, n);
    DescentElements(p, step, n);
    forall i | 0 <= i < n
      ensures d[i] == Invalidate(p - (i + 1) * step)
    {
      if i + 1 < n {
        MulStrict(i + 1, n, step);
      }
      OffsetAfterExact(p, step, i + 1);
    }
    forall i, j | 0 <= i < j < n
      ensures d[j].offset < d[i].offset
    {
      MulStrict(i + 1, j + 1, step);
    }
  }

  /** The number of ticks whose render request the loop emitted: all of them
      but the completing one. */
  function Painted(o: Outcome): (k: nat) {
    if o.exit == Completed && o.ticks > 0 then o.ticks - 1 else o.ticks
  }

  lemma ConcatAssoc<T>(a: seq<T>, b: seq<T>, c: seq<T>)
    ensures a + (b + c) == (a + b) + c
  {
  }

  lemma MiddleOfConcat<T>(a: seq<T>, b: seq<T>, c: seq<T>)
    ensures (a + b + c)[|a|..|a| + |b|] == b
  {
  }

  /** One unfolding of the loop through a non-final tick. */
  lemma LoopAdvance(cfg: Config, v: View, stops: seq<bool>)
    requires |stops| > 0 && !stops[0] && cfg.step != 0
    requires !PastEnd(v.myHeight, Sub(v.nowPoint, cfg.step))
    ensures var q := Sub(v.nowPoint, cfg.step);
      var rest := Loop(cfg, v.(nowPoint := q), false, stops[1..]);
      Loop(cfg, v, false, stops) == Outcome(rest.view, [Invalidate(q)] + rest.trace, rest.ticks + 1, rest.exit)
  {
  }

  /** One unfolding of the loop through a completing tick. */
  lemma LoopFinish(cfg: Config, v: View, stops: seq<bool>)
    requires |stops| > 0 && !stops[0] && cfg.step != 0
    requires PastEnd(v.myHeight, Sub(v.nowPoint, cfg.step))
    ensures var q := Sub(v.nowPoint, cfg.step);
      Loop(cfg, v, false, stops)
      == Outcome(v.(nowPoint := if cfg.resetOnFinish then 0 else q, isScrolling := false),
                 FinishEvents(cfg), 1, Completed)
  {
  }

  /** The loop's trace, whatever the stop schedule: one render request per
      non-final tick, painting the freshly decremented offset, then on
      completion the finishing events. */
  lemma {:induction false} LoopTrace(cfg: Config, v: View, finished: bool, stops: seq<bool>)
    ensures var o := Loop(cfg, v, finished, stops);
      o.trace == Descent(v.nowPoint, cfg.step, Painted(o))
                 + (if o.exit == Completed then FinishEvents(cfg) else [])
    decreases |stops|
  {
    var o := Loop(cfg, v, finished, stops);
    if |stops| == 0 || finished || stops[0] || cfg.step == 0 {
      assert o.trace == [] && o.ticks == 0 && o.exit != Completed;
    } else {
      var q := Sub(v.nowPoint, cfg.step);
      if PastEnd(v.myHeight, q) {
        LoopFinish(cfg, v, stops);
      } else {
        var rest := Loop(cfg, v.(nowPoint := q), false, stops[1..]);
        LoopAdvance(cfg, v, stops);
        LoopTrace(cfg, v.(nowPoint := q), false, stops[1..]);
        var tail := if rest.exit == Completed then FinishEvents(cfg) else [];
        var d := Descent(q, cfg.step, Painted(rest));
        assert rest.trace == d + tail;
        assert Painted(o) == Painted(rest) + 1;
        assert Descent(v.nowPoint, cfg.step, Painted(o)) == [Invalidate(q)] + d;
        ConcatAssoc([Invalidate(q)], d, tail);
      }
    }
  }

  /** The loop's final offset: the start offset after all its ticks, except
      that a completion with resetOnFinish leaves 0; a completion happens on
      the first tick whose offset is past the end, and only then. */
  lemma {:induction false} LoopOffsets(cfg: Config, v: View, finished: bool, stops: seq<bool>)
    ensures var o := Loop(cfg, v, finished, stops);
      && (o.exit != Completed ==> o.view.nowPoint == OffsetAfter(v.nowPoint, cfg.step, o.ticks))
      && (o.exit == Completed ==>
            && PastEnd(v.myHeight, OffsetAfter(v.nowPoint, cfg.step, o.ticks))
            && o.view.nowPoint
               == (if cfg.resetOnFinish then 0 else OffsetAfter(v.nowPoint, cfg.step, o.ticks)))
      && (forall j :: 1 <= j <= Painted(o) ==> !PastEnd(v.myHeight, OffsetAfter(v.nowPoint, cfg.step, j)))
    decreases |stops|
  {
    var o := Loop(cfg, v, finished, stops);
    if |stops| > 0 && !finished && !stops[0] && cfg.step != 0 {
      var q := Sub(v.nowPoint, cfg.step);
      assert OffsetAfter(v.nowPoint, cfg.step, 1) == q;
      if !PastEnd(v.myHeight, q) {
        var v' := v.(nowPoint := q);
        LoopAdvance(cfg, v, stops);
        LoopOffsets(cfg, v', false, stops[1..]);
        forall j | 1 <= j <= Painted(o)
          ensures !PastEnd(v.myHeight, OffsetAfter(v.nowPoint, cfg.step, j))
        {
          if j > 1 {
            assert OffsetAfter(v.nowPoint, cfg.step, j) == OffsetAfter(q, cfg.step, j - 1);
          }
        }
      } else {
        LoopFinish(cfg, v, stops);
      }
    }
  }

  /** Setting the flag bounds the work: if stop() has been called by the i-th
      check, the loop subtracts the step at most i times and does exit. */
  lemma {:induction false} StopBoundsTicks(cfg: Config, v: View, finished: bool, stops: seq<bool>, i: nat)
    requires i < |stops| && stops[i]
    ensures Loop(cfg, v, finished, stops).ticks <= i
    ensures Loop(cfg, v, finished, stops).exit != Pending
    decreases |stops|
  {
    if !(finished || stops[0]) && cfg.step != 0 {
      var q := Sub(v.nowPoint, cfg.step);
      if !PastEnd(v.myHeight, q) {
        StopBoundsTicks(cfg, v.(nowPoint := q), false, stops[1..], i - 1);
      }
    }
  }

  /** The flag is obeyed exactly: every tick follows a check that found the
      flag clear, and a Stopped exit happens at a check that found it set. */
  lemma {:induction false} StoppedOnlyAtFlag(cfg: Config, v: View, finished: bool, stops: seq<bool>)
    ensures var o := Loop(cfg, v, finished, stops);
      && (o.ticks > 0 ==> !finished)
      && (forall j :: 0 <= j < o.ticks ==> !stops[j])
      && (o.exit == Stopped ==> o.ticks < |stops| && ((finished && o.ticks == 0) || stops[o.ticks]))
      && (o.exit == Pending ==> forall j :: 0 <= j < |stops| ==> !stops[j])
    decreases |stops|
  {
    if |stops| > 0 && !finished && !stops[0] && cfg.step != 0 {
      var q := Sub(v.nowPoint, cfg.step);
      if !PastEnd(v.myHeight, q) {
        var rest := stops[1..];
        StoppedOnlyAtFlag(cfg, v.(nowPoint := q), false, rest);
        forall j | 1 <= j < |stops|
          ensures stops[j] == rest[j - 1]
        {
        }
      }
    }
  }

  /** A positive step over a content height h, starting from an offset p that
      has not passed the end (and with no offset wrapping around), completes
      after exactly n ticks, n the smallest count with n * step > p + h, when
      nobody stops it. */
  lemma {:induction false} LoopCompletes(cfg: Config, v: View, stops: seq<bool>, n: nat)
    requires cfg.step > 0 && v.myHeight > 0
    requires v.nowPoint - n * cfg.step >= MIN_VALUE
    requires -v.myHeight <= v.nowPoint
    requires (n - 1) * cfg.step <= v.nowPoint + v.myHeight < n * cfg.step
    requires |stops| >= n
    requires forall i :: 0 <= i < |stops| ==> !stops[i]
    ensures var o := Loop(cfg, v, false, stops);
      o.exit == Completed && o.ticks == n
    decreases n
  {
    var s := cfg.step;
    assert n >= 1;
    MulAtLeast(n, s);
    MulShift(n, s);
    var q := Sub(v.nowPoint, s);
    assert q == v.nowPoint - s;
    if n > 1 {
      MulAtLeast(n - 1, s);
      MulShift(n - 1, s);
      assert !PastEnd(v.myHeight, q);
      LoopCompletes(cfg, v.(nowPoint := q), stops[1..], n - 1);
      LoopAdvance(cfg, v, stops);
    } else {
      assert PastEnd(v.myHeight, q);
      LoopFinish(cfg, v, stops);
    }
  }

  /** The loop of a cycle that starts from rest and is never stopped. */
  lemma LoopFromRest(cfg: Config, v: View, stops: seq<bool>, n: int)
    requires cfg.step > 0 && v.myHeight > 0
    requires n * cfg.step <= -MIN_VALUE
    requires v.nowPoint == 0
    requires (n - 1) * cfg.step <= v.myHeight < n * cfg.step
    requires |stops| >= n
    requires forall i :: 0 <= i < |stops| ==> !stops[i]
    ensures var lo := Loop(cfg, v, false, stops);
      && lo.exit == Completed
      && lo.ticks == n
      && lo.trace == Descent(0, cfg.step, n - 1) + FinishEvents(cfg)
      && lo.view.nowPoint == (if cfg.resetOnFinish then 0 else -n * cfg.step)
  {
    MulAtLeast(1, cfg.step);
    assert n >= 1 by {
      if n < 1 {
        MulStrict(n, 1, cfg.step);
      }
    }
    LoopCompletes(cfg, v, stops, n);
    var lo := Loop(cfg, v, false, stops);
    assert Painted(lo) == n - 1;
    LoopTrace(cfg, v, false, stops);
    LoopOffsets(cfg, v, false, stops);
    assert 0 - n * cfg.step >= MIN_VALUE by {
      MulShift(n, cfg.step);
    }
    OffsetAfterExact(0, cfg.step, n);
  }

  /** From rest (offset 0) with a positive step and a positive height, and no
      stop request, a cycle ends after exactly n ticks, n the smallest count
      with n * step > h. Its trace is Prepare, Start, the n - 1 strictly
      decreasing offsets -step, -2*step, ..., then the finishing events, and
      the offset is left at 0 or at -n * step. */
  lemma RunFromRest(cfg: Config, v: View, stops: seq<bool>, n: int)
    requires cfg.step > 0 && v.myHeight > 0
    requires n * cfg.step <= -MIN_VALUE
    requires v.nowPoint == 0
    requires (n - 1) * cfg.step <= v.myHeight < n * cfg.step
    requires |stops| >= n
    requires forall i :: 0 <= i < |stops| ==> !stops[i]
    ensures n >= 1
    ensures var o := Run(cfg, v, stops);
      && o.exit == Completed
      && !o.view.isScrolling
      && o.ticks == n
      && o.trace == Header(cfg) + Descent(0, cfg.step, n - 1) + FinishEvents(cfg)
      && StrictlyDecreasing(Descent(0, cfg.step, n - 1))
      && o.view.nowPoint == (if cfg.resetOnFinish then 0 else -n * cfg.step)
  {
    var start := v.(isScrolling := true);
    RunUnfold(cfg, v, stops);
    LoopFromRest(cfg, start, stops, n);
    ConcatAssoc(Header(cfg), Descent(0, cfg.step, n - 1), FinishEvents(cfg));
    MulShift(n, cfg.step);
    DescentClosedForm(0, cfg.step, n - 1);
  }

  /** For a positive step and a non-negative height h, the count
      n = h / step + 1 meets the bracket of RunFromRest. */
  lemma SmallestTickCount(h: int, step: int)
    requires step > 0 && h >= 0
    ensures (h / step + 1) * step > h
    ensures (h / step) * step <= h
  {
    var q := h / step;
    assert h == q * step + h % step;
    assert (q + 1) * step == q * step + step;
  }

  /** The tick count of a cycle from rest, in closed form: a positive step
      over a positive height h, never stopped, completes after h / step + 1
      ticks, the first one that carries the offset below -h. */
  lemma TicksFromRest(cfg: Config, v: View, stops: seq<bool>)
    requires cfg.step > 0 && v.myHeight > 0
    requires v.myHeight + cfg.step <= -MIN_VALUE
    requires v.nowPoint == 0
    requires |stops| > v.myHeight / cfg.step
    requires forall i :: 0 <= i < |stops| ==> !stops[i]
    ensures var o := Run(cfg, v, stops);
      && o.exit == Completed
      && o.ticks == v.myHeight / cfg.step + 1
      && !o.view.isScrolling
      && o.view.nowPoint == (if cfg.resetOnFinish then 0 else -(v.myHeight / cfg.step + 1) * cfg.step)
  {
    var n := v.myHeight / cfg.step + 1;
    SmallestTickCount(v.myHeight, cfg.step);
    MulShift(n, cfg.step);
    RunFromRest(cfg, v, stops, n);
  }

  /** The example of a 100-pixel text scrolled 5 pixels at a time, no reset,
      whatever the delay and speed: 21 ticks, the offsets -5, -10, ..., -100
      painted, onScrollStop, and the offset left at -105. */
  lemma ScrollOffHundredPixels(cfg: Config, v: View, stops: seq<bool>)
    requires cfg.step == 5 && !cfg.resetOnFinish && cfg.hasListener
    requires v.nowPoint == 0 && v.myHeight == 100
    requires |stops| >= 21
    requires forall i :: 0 <= i < |stops| ==> !stops[i]
    ensures var o := Run(cfg, v, stops);
      && o.exit == Completed
      && o.ticks == 21
      && |o.trace| == 2 + 20 + 1
      && o.trace[0] == Prepare && o.trace[1] == Start
      && o.trace[2] == Invalidate(-5)
      && o.trace[21] == Invalidate(-100)
      && StrictlyDecreasing(o.trace[2..22])
      && o.trace[22] == Stop
      && o.view.nowPoint == -105
  {
    RunFromRestFramed(cfg, v, stops, 21);
    assert FinishEvents(cfg) == [Stop];
    assert (21 - 1) * cfg.step == 100;
    var t := Run(cfg, v, stops).trace;
    assert t[22] == t[22..][0];
  }

  /** Indexing into a trace made of Prepare, Start, a descent and a tail. */
  lemma FramedDescent(t: seq<Event>, d: seq<Event>, tail: seq<Event>)
    requires t == [Prepare, Start] + d + tail
    ensures |t| == 2 + |d| + |tail|
    ensures t[0] == Prepare && t[1] == Start
    ensures t[2..2 + |d|] == d
    ensures t[2 + |d|..] == tail
  {
    MiddleOfConcat([Prepare, Start], d, tail);
    assert t == ([Prepare, Start] + d) + tail;
  }

  /** RunFromRest with a listener, laid out by position: Prepare and Start
      at 0 and 1, the n - 1 renders from -step down to -(n - 1) * step at
      2 .. n, the finishing events from n + 1 on. */
  lemma RunFromRestFramed(cfg: Config, v: View, stops: seq<bool>, n: int)
    requires cfg.step > 0 && v.myHeight > 0 && cfg.hasListener
    requires n * cfg.step <= -MIN_VALUE
    requires v.nowPoint == 0
    requires (n - 1) * cfg.step <= v.myHeight < n * cfg.step
    requires |stops| >= n
    requires forall i :: 0 <= i < |stops| ==> !stops[i]
    ensures n >= 1
    ensures var o := Run(cfg, v, stops);
      && o.exit == Completed
      && !o.view.isScrolling
      && o.ticks == n
      && o.view.nowPoint == (if cfg.resetOnFinish then 0 else -n * cfg.step)
      && |o.trace| == n + 1 + |FinishEvents(cfg)|
      && o.trace[0] == Prepare && o.trace[1] == Start
      && o.trace[2..n + 1] == Descent(0, cfg.step, n - 1)
      && StrictlyDecreasing(o.trace[2..n + 1])
      && o.trace[n + 1..] == FinishEvents(cfg)
      && (n >= 2 ==> o.trace[2] == Invalidate(-cfg.step) && o.trace[n] == Invalidate(-(n - 1) * cfg.step))
  {
    RunFromRest(cfg, v, stops, n);
    MulShift(n, cfg.step);
    assert Header(cfg) == [Prepare, Start];
    FramedTrace(Run(cfg, v, stops).trace, cfg.step, n, FinishEvents(cfg));
  }

  /** The positions in a trace Prepare, Start, the renders of n - 1 ticks
      from rest, then a tail. */
  lemma FramedTrace(t: seq<Event>, step: int32, n: int, tail: seq<Event>)
    requires step > 0 && n >= 1 && (n - 1) * step <= -MIN_VALUE
    requires t == [Prepare, Start] + Descent(0, step, n - 1) + tail
    ensures |t| == n + 1 + |tail|
    ensures t[0] == Prepare && t[1] == Start
    ensures t[2..n + 1] == Descent(0, step, n - 1)
    ensures StrictlyDecreasing(t[2..n + 1])
    ensures t[n + 1..] == tail
    ensures n >= 2 ==> t[2] == Invalidate(-step) && t[n] == Invalidate(-(n - 1) * step)
  {
    var d := Descent(0, step, n - 1);
    DescentFromRest(step, n - 1);
    FramedDescent(t, d, tail);
    if n >= 2 {
      assert t[2] == t[2..n + 1][0];
      assert t[n] == t[2..n + 1][n - 2];
    }
  }

  /** The renders of m non-final ticks from rest: -step first, -m * step
      last, strictly decreasing in between. */
  lemma DescentFromRest(step: int32, m: int)
    requires step > 0 && m >= 0 && m * step <= -MIN_VALUE
    ensures var d := Descent(0, step, m);
      && |d| == m
      && StrictlyDecreasing(d)
      && (m >= 1 ==> d[0] == Invalidate(-step) && d[m - 1] == Invalidate(-m * step))
  {
    DescentClosedForm(0, step, m);
    var d := Descent(0, step, m);
    if m >= 1 {
      assert d[0] == Invalidate(0 - (0 + 1) * step);
      assert d[m - 1] == Invalidate(0 - (m - 1 + 1) * step);
    }
  }

  /** The same example with resetOnFinish: the offset ends at 0 and the reset
      is painted just before onScrollStop. */
  lemma ScrollOffHundredPixelsWithReset(cfg: Config, v: View, stops: seq<bool>)
    requires cfg.step == 5 && cfg.resetOnFinish && cfg.hasListener
    requires v.nowPoint == 0 && v.myHeight == 100
    requires |stops| >= 21
    requires forall i :: 0 <= i < |stops| ==> !stops[i]
    ensures var o := Run(cfg, v, stops);
      && o.exit == Completed
      && !o.view.isScrolling
      && o.view.nowPoint == 0
      && |o.trace| == 2 + 20 + 2
      && o.trace[22] == Invalidate(0)
      && o.trace[23] == Stop
  {
    RunFromRestFramed(cfg, v, stops, 21);
    assert FinishEvents(cfg) == [Invalidate(0), Stop];
    var t := Run(cfg, v, stops).trace;
    assert t[22] == t[22..][0] && t[23] == t[22..][1];
  }

  lemma NotificationsOfHeader(cfg: Config)
    ensures Notifications(Header(cfg)) == Header(cfg)
  {
    if cfg.hasListener {
      assert Header(cfg)[1..] == [Start];
      assert Notifications([Start]) == [Start];
    }
  }

  lemma NotificationsOfFinish(cfg: Config)
    ensures Notifications(FinishEvents(cfg)) == if cfg.hasListener then [Stop] else []
  {
    var t := FinishEvents(cfg);
    if cfg.resetOnFinish && cfg.hasListener {
      assert t[1..] == [Stop];
      assert t[1..][1..] == [];
    } else if cfg.resetOnFinish || cfg.hasListener {
      assert t[1..] == [];
    }
  }

  /** A run is its loop, started with the scrolling flag set, behind the header. */
  lemma RunUnfold(cfg: Config, v: View, stops: seq<bool>)
    ensures var lo := Loop(cfg, v.(isScrolling := true), false, stops);
      Run(cfg, v, stops) == Outcome(lo.view, Header(cfg) + lo.trace, lo.ticks, lo.exit)
  {
  }

  /** The listener hears Prepare, then Start, then onScrollStop exactly when
      the cycle completed, and nothing else; without a listener, nothing. */
  lemma RunNotifications(cfg: Config, v: View, stops: seq<bool>)
    ensures var o := Run(cfg, v, stops);
      Notifications(o.trace)
      == if cfg.hasListener then [Prepare, Start] + (if o.exit == Completed then [Stop] else [])
         else []
  {
    var start := v.(isScrolling := true);
    var lo := Loop(cfg, start, false, stops);
    RunUnfold(cfg, v, stops);
    LoopTrace(cfg, start, false, stops);
    var d := Descent(v.nowPoint, cfg.step, Painted(lo));
    var tail := if lo.exit == Completed then FinishEvents(cfg) else [];
    DescentIsRendersOnly(v.nowPoint, cfg.step, Painted(lo));
    NotificationsSkipRenders(Header(cfg), d, tail);
    NotificationsOfHeader(cfg);
    NotificationsOfFinish(cfg);
  }

  /** Render requests between a header and a tail are invisible to the listener. */
  lemma NotificationsSkipRenders(h: seq<Event>, d: seq<Event>, tail: seq<Event>)
    requires Notifications(d) == []
    ensures Notifications(h + (d + tail)) == Notifications(h) + Notifications(tail)
  {
    NotificationsAppend(h, d + tail);
    NotificationsAppend(d, tail);
  }

  /** A zero step: the loop leaves on its first check without touching the
      offset and without onScrollStop, so the view keeps reporting that it
      is scrolling. Start is still sent. */
  lemma StepZeroIsSilent(cfg: Config, v: View, stops: seq<bool>)
    requires cfg.step == 0 && |stops| > 0
    ensures var o := Run(cfg, v, stops);
      && o.exit == (if stops[0] then Stopped else StepZero)
      && o.ticks == 0
      && o.view == v.(isScrolling := true)
      && o.trace == Header(cfg)
      && Stop !in o.trace
  {
  }

  /** A zero content height: the completion branch is never taken. With a
      non-zero step and no stop request the loop ticks on through every check
      it is given, so only stop() can end it. */
  lemma {:induction false} ZeroHeightNeverCompletes(cfg: Config, v: View, finished: bool, stops: seq<bool>)
    requires v.myHeight == 0
    ensures var o := Loop(cfg, v, finished, stops);
      && o.exit != Completed
      && o.view.isScrolling == v.isScrolling
      && ((cfg.step != 0 && !finished && (forall i :: 0 <= i < |stops| ==> !stops[i]))
          ==> o.exit == Pending && o.ticks == |stops|)
    decreases |stops|
  {
    if |stops| > 0 && !finished && !stops[0] && cfg.step != 0 {
      ZeroHeightNeverCompletes(cfg, v.(nowPoint := Sub(v.nowPoint, cfg.step)), false, stops[1..]);
    }
  }

  /** A cycle whose flag is found set at the first check still sends Prepare
      and Start (the delay is not interrupted) but changes nothing else. */
  lemma StopDuringDelay(cfg: Config, v: View, stops: seq<bool>)
    requires |stops| > 0 && stops[0]
    ensures var o := Run(cfg, v, stops);
      && o.exit == Stopped
      && o.ticks == 0
      && o.view == v.(isScrolling := true)
      && o.trace == Header(cfg)
  {
  }
}
