/** One scroll cycle of AutoVerticalScrollTextView: what a MarqueeRunnable does
    from the moment its thread starts until its loop exits.

    The sleeps (the start delay and the per-tick pause) are no-ops here. The
    runnable's `finished` flag is written by another thread, so the moment at
    which it becomes set is an input: `stops[i]` says whether stop() has been
    called by the time the loop checks the flag for the i-th time. The sequence
    is finite; when the loop would check the flag beyond its end the run is
    reported as Pending, i.e. still scrolling. */
module ScrollCycle {
  import opened JavaInt

  /** What a cycle makes visible outside: the three listener callbacks and the
      render requests. A render request records the offset it asks to paint. */
  datatype Event =
    | Prepare                  // onScrollPrepare()
    | Start                    // onScrollStart()
    | Stop                     // onScrollStop()
    | Invalidate(offset: int)  // postInvalidate() while nowPoint == offset

  /** The settings a cycle runs with. `delayStart` and `speed` only size the
      sleeps, which take no time in this model. */
  datatype Config = Config(
    delayStart: int32,
    step: int32,
    speed: int32,
    resetOnFinish: bool,
    hasListener: bool)

  /** The view fields a cycle reads and writes: the drawing offset, the content
      height and the scrolling flag. */
  datatype View = View(nowPoint: int32, myHeight: int32, isScrolling: bool)

  /** The completion test of the loop, in Java `int` arithmetic:
      the content has left the viewport once the offset is below `-myHeight`,
      and a zero height disables the test. */
  function PastEnd(myHeight: int32, offset: int32): (b: bool)
    ensures b <==> myHeight != 0 && myHeight != MIN_VALUE && offset < -myHeight
  {
    myHeight != 0 && offset < Neg(myHeight)
  }

  /** What one pass through the loop body does after finding the flag clear. */
  datatype TickResult =
    | Break                 // step == 0: leave the loop silently
    | Advance(offset: int32) // new offset, painted; the loop goes on
    | Finish(offset: int32)  // completion; the offset the view is left with

  /** One loop body: subtract the step, then either finish or keep going. */
  function Tick(cfg: Config, myHeight: int32, nowPoint: int32): (r: TickResult)
    ensures r.Break? <==> cfg.step == 0
    ensures (!r.Break? && !(r.Finish? && cfg.resetOnFinish) && InRange(nowPoint - cfg.step))
      ==> r.offset == nowPoint - cfg.step
    ensures r.Advance? && cfg.step > 0 && InRange(nowPoint - cfg.step) ==> r.offset < nowPoint
    ensures r.Finish? ==> myHeight != 0 && myHeight != MIN_VALUE
    ensures r.Finish? && cfg.resetOnFinish ==> r.offset == 0
    ensures r.Finish? && !cfg.resetOnFinish ==> r.offset < -myHeight
    ensures r.Advance? && myHeight != 0 && myHeight != MIN_VALUE ==> r.offset >= -myHeight
    ensures r.Finish? ==> Sub(nowPoint, cfg.step) < -myHeight
    ensures r.Finish? && !cfg.resetOnFinish ==> r.offset == Sub(nowPoint, cfg.step)
    ensures r.Advance? ==> r.offset == Sub(nowPoint, cfg.step)
  {
    if cfg.step == 0 then
      Break
    else
      var p := Sub(nowPoint, cfg.step);
      if PastEnd(myHeight, p) then
        Finish(if cfg.resetOnFinish then 0 else p)
      else
        Advance(p)
  }

  /** Why the loop stopped running. */
  datatype Exit =
    | StepZero   // the silent `step == 0` break
    | Stopped    // the `finished` flag was found set
    | Completed  // the content scrolled off: onScrollStop path
    | Pending    // the observed checks ran out while still scrolling

  /** The view after the loop, the events it emitted in order, and how many
      times it subtracted the step. */
  datatype Outcome = Outcome(view: View, trace: seq<Event>, ticks: nat, exit: Exit)

  /** The events of the completion branch: the render of the reset offset,
      then onScrollStop. */
  function FinishEvents(cfg: Config): (t: seq<Event>)
    ensures |t| == (if cfg.resetOnFinish then 1 else 0) + (if cfg.hasListener then 1 else 0)
    ensures Stop in t <==> cfg.hasListener
    ensures Invalidate(0) in t <==> cfg.resetOnFinish
    ensures cfg.resetOnFinish ==> t[0] == Invalidate(0)
    ensures cfg.hasListener ==> t[|t| - 1] == Stop
  {
    match (cfg.resetOnFinish, cfg.hasListener)
    case (true, true) => [Invalidate(0), Stop]
    case (true, false) => [Invalidate(0)]
    case (false, true) => [Stop]
    case (false, false) => []
  }

  /** The `while (!finished)` loop. `finished` is the flag's value before the
      first check; stop() only ever sets it, so it stays set. */
  function Loop(cfg: Config, v: View, finished: bool, stops: seq<bool>): (o: Outcome)
    ensures o.ticks <= |stops|
    ensures o.view.myHeight == v.myHeight
    ensures o.view.isScrolling == (v.isScrolling && o.exit != Completed)
    ensures o.exit == Pending ==> o.ticks == |stops|
    ensures o.exit == Completed ==> o.ticks >= 1
    ensures o.exit == StepZero <==> !finished && |stops| > 0 && !stops[0] && cfg.step == 0
    ensures finished && |stops| > 0 ==> o.exit == Stopped && o.view == v && o.trace == []
    ensures cfg.step == 0 ==> o.ticks == 0 && o.view == v && o.trace == []
    ensures v.myHeight == 0 ==> o.exit != Completed
    ensures (Stop in o.trace) <==> o.exit == Completed && cfg.hasListener
    decreases |stops|
  {
    if |stops| == 0 then
      Outcome(v, [], 0, Pending)
    else if finished || stops[0] then
      Outcome(v, [], 0, Stopped)
    else
      match Tick(cfg, v.myHeight, v.nowPoint)
      case Break =>
        Outcome(v, [], 0, StepZero)
      case Finish(p) =>
        Outcome(v.(nowPoint := p, isScrolling := false), FinishEvents(cfg), 1, Completed)
      case Advance(p) =>
        var rest := Loop(cfg, v.(nowPoint := p), false, stops[1..]);
        Outcome(rest.view, [Invalidate(p)] + rest.trace, rest.ticks + 1, rest.exit)
  }

  /** The notifications a cycle sends before its loop. */
  function Header(cfg: Config): (t: seq<Event>)
    ensures |t| == (if cfg.hasListener then 2 else 0)
    ensures cfg.hasListener ==> t[0] == Prepare && t[1] == Start
    ensures Stop !in t
  {
    if cfg.hasListener then [Prepare, Start] else []
  }

  /** MarqueeRunnable.run: mark scrolling, notify Prepare, (sleep), notify
      Start, then loop with the flag clear. */
  function Run(cfg: Config, v: View, stops: seq<bool>): (o: Outcome)
    ensures o.view.isScrolling <==> o.exit != Completed
    ensures o.view.myHeight == v.myHeight
    ensures cfg.hasListener ==> |o.trace| >= 2 && o.trace[0] == Prepare && o.trace[1] == Start
    ensures (Stop in o.trace) <==> cfg.hasListener && o.exit == Completed
  {
    var o := Loop(cfg, v.(isScrolling := true), false, stops);
    Outcome(o.view, Header(cfg) + o.trace, o.ticks, o.exit)
  }
}
