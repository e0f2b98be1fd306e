# AutoVerticalScrollTextView scroll cycle, in Dafny

This project models the scroll-cycle logic of the Android widget
`AutoVerticalScrollTextView`. After a start delay the widget scrolls its text
upward by `step` pixels per tick until the text has left the viewport. It can
optionally snap back to the top, and it tells a `ScrollStatusListener` when the
scroll prepares, starts and stops. Two parts are modelled:

- **The tick loop of `MarqueeRunnable.run`** (module `ScrollCycle`). It is a
  pure state machine over the view fields `nowPoint` (the drawing offset),
  `myHeight` (the content height) and `isScrolling`. It emits a trace of
  `Prepare`, `Start`, `Stop` and `Invalidate(offset)` events. Sleeps take no
  time. The runnable's `finished` flag is set by another thread, so it is an
  input: `stops[i]` says whether `stop()` has been called by the loop's i-th
  flag check. Because that sequence is finite, a run that is still scrolling
  when the checks run out ends with the exit reason `Pending`.
- **The restart supervisor** (module `Supervisor`): `resetThread`, `reset` and
  the `onLayout` hook. They recompute the height, stop the current runnable and
  install a fresh one.

Java `int` arithmetic is written out in module `JavaInt`. The subtraction
`nowPoint -= step`, the negation `-myHeight` and the product
`getLineHeight() * getLineCount()` all wrap modulo 2^32. The loop itself is
modelled with that wrap-around. Lemmas that need exact arithmetic carry a
no-overflow precondition instead.

Module `ScrollProperties` proves:
- the shape of the trace;
- the exact number of ticks;
- the painted offsets;
- the order of notifications;
- the `step == 0` case, the zero-height case and the stop-flag case.

Only `stop()` ever sets `finished` (lines 232-236). A loop that exits on
its own leaves the flag clear, so the next `resetThread` calls `stop()` on it
(`Supervisor.ResetThread`).

## Model

| member | source | states |
|---|---|---|
| JavaInt.Sub | autoscrolllib/src/main/java/io/github/engrzhou/autoscrolllib/AutoVerticalScrollTextView.java:259 | `nowPoint -= step` on Java `int`: the exact difference when it fits in 32 bits, otherwise the exact difference moved by one 2^32 back into range |
| JavaInt.SubIsWrap | autoscrolllib/src/main/java/io/github/engrzhou/autoscrolllib/AutoVerticalScrollTextView.java:259 | that subtraction is the two's-complement wrap-around of the exact difference: congruent to it modulo 2^32 and equal to the general `Wrap` |
| JavaInt.Neg | autoscrolllib/src/main/java/io/github/engrzhou/autoscrolllib/AutoVerticalScrollTextView.java:260 | `-myHeight` on Java `int` negates every value except `Integer.MIN_VALUE`, which it leaves unchanged |
| JavaInt.NegIsWrap | autoscrolllib/src/main/java/io/github/engrzhou/autoscrolllib/AutoVerticalScrollTextView.java:260 | that negation is the two's-complement wrap-around of the exact negation |
| JavaInt.Mul | autoscrolllib/src/main/java/io/github/engrzhou/autoscrolllib/AutoVerticalScrollTextView.java:207 | `getLineHeight() * getLineCount()` on Java `int`: congruent to the exact product, and equal to it when the product fits |
| JavaInt.WrapUnique | autoscrolllib/src/main/java/io/github/engrzhou/autoscrolllib/AutoVerticalScrollTextView.java:228-229 | a Java `int` is determined by its residue modulo 2^32: the wrapped value is the only 32-bit value congruent to the exact one |
| ScrollCycle.PastEnd | autoscrolllib/src/main/java/io/github/engrzhou/autoscrolllib/AutoVerticalScrollTextView.java:260 | the end test `myHeight != 0 && nowPoint < -myHeight` in Java `int`: it holds iff the height is neither 0 nor `MIN_VALUE` (whose negation wraps to itself) and the offset is below the exact `-myHeight` |
| ScrollCycle.Tick | autoscrolllib/src/main/java/io/github/engrzhou/autoscrolllib/AutoVerticalScrollTextView.java:256-271 | one loop body breaks iff `step == 0`; otherwise it computes the Java `int` difference `nowPoint - step` (exactly `-step` away when no wrap-around happens, and smaller for a positive step); it completes only when that difference is below `-myHeight` with a height other than 0 and `MIN_VALUE`, and then leaves 0 with `resetOnFinish` and the difference without it; a non-final tick keeps the difference, which is at or above `-myHeight` |
| ScrollCycle.FinishEvents | autoscrolllib/src/main/java/io/github/engrzhou/autoscrolllib/AutoVerticalScrollTextView.java:261-268 | the completion branch emits the render of offset 0 iff `resetOnFinish`, first, and onScrollStop iff a listener is set, last; nothing else |
| ScrollCycle.Header | autoscrolllib/src/main/java/io/github/engrzhou/autoscrolllib/AutoVerticalScrollTextView.java:244-254 | before the loop, a listener hears onScrollPrepare then onScrollStart; without one nothing is emitted; no Stop is ever part of it |
| ScrollCycle.Loop | autoscrolllib/src/main/java/io/github/engrzhou/autoscrolllib/AutoVerticalScrollTextView.java:255-277 | the `while (!finished)` loop never ticks more often than it checks the flag; `isScrolling` is cleared exactly on completion; the silent exit happens iff the flag is clear at the first check and `step == 0`; a set flag means no tick, no event and no change; `step == 0` changes nothing; height 0 never completes; a Stop event appears iff the loop completed with a listener |
| ScrollCycle.Run | autoscrolllib/src/main/java/io/github/engrzhou/autoscrolllib/AutoVerticalScrollTextView.java:242-278 | `run()` leaves `isScrolling` true unless it completed; with a listener the trace begins Prepare, Start; Stop appears iff there is a listener and the cycle completed |
| ScrollProperties.LoopTrace | autoscrolllib/src/main/java/io/github/engrzhou/autoscrolllib/AutoVerticalScrollTextView.java:255-271 | for every stop schedule, the loop's trace is one Invalidate per non-final tick, each painting the newly decremented offset, followed on completion by the reset render (if `resetOnFinish`) and Stop (if a listener is set) |
| ScrollProperties.LoopOffsets | autoscrolllib/src/main/java/io/github/engrzhou/autoscrolllib/AutoVerticalScrollTextView.java:259-264 | the final offset is the start offset after all ticks, except that completion with `resetOnFinish` leaves 0; completion happens on the first tick whose offset is past `-myHeight`, and on no earlier tick |
| ScrollProperties.DescentElements | autoscrolllib/src/main/java/io/github/engrzhou/autoscrolllib/AutoVerticalScrollTextView.java:259-271 | the i-th render request of a run paints the offset reached after i + 1 decrements |
| ScrollProperties.OffsetAfterExact | autoscrolllib/src/main/java/io/github/engrzhou/autoscrolllib/AutoVerticalScrollTextView.java:259 | without wrap-around, n decrements of a positive step move the offset by exactly n * step |
| ScrollProperties.DescentClosedForm | autoscrolllib/src/main/java/io/github/engrzhou/autoscrolllib/AutoVerticalScrollTextView.java:259-271 | without wrap-around, the painted offsets are p - step, p - 2*step, ... and strictly decrease |
| ScrollProperties.StoppedOnlyAtFlag | autoscrolllib/src/main/java/io/github/engrzhou/autoscrolllib/AutoVerticalScrollTextView.java:255 | the flag is obeyed exactly: every tick follows a check that found the flag clear; a Stopped exit happens at a check that found it set (or at the first check with the flag already set); a Pending exit means no check found it set |
| ScrollProperties.StopBoundsTicks | autoscrolllib/src/main/java/io/github/engrzhou/autoscrolllib/AutoVerticalScrollTextView.java:232-255 | if `stop()` has been called by the i-th flag check, the loop exits and has subtracted the step at most i times |
| ScrollProperties.LoopCompletes | autoscrolllib/src/main/java/io/github/engrzhou/autoscrolllib/AutoVerticalScrollTextView.java:255-270 | with a positive step and height and no stop request, a loop starting at or above `-myHeight` completes after exactly the smallest n with n * step > offset + height |
| ScrollProperties.LoopFromRest | autoscrolllib/src/main/java/io/github/engrzhou/autoscrolllib/AutoVerticalScrollTextView.java:255-271 | from offset 0, with no offset wrapping around, such a loop completes after that n ticks; its trace is n - 1 renders then the finishing events; the final offset is 0 or -n * step |
| ScrollProperties.RunFromRest | autoscrolllib/src/main/java/io/github/engrzhou/autoscrolllib/AutoVerticalScrollTextView.java:243-271 | a whole cycle from rest: n ticks for the smallest n with n * step > height; trace Prepare, Start, n - 1 strictly decreasing renders, finishing events; `isScrolling` false; final offset 0 (reset) or -n * step |
| ScrollProperties.TicksFromRest | autoscrolllib/src/main/java/io/github/engrzhou/autoscrolllib/AutoVerticalScrollTextView.java:243-271 | a cycle from rest with a positive step and height, never stopped, completes after exactly height / step + 1 ticks, with `isScrolling` false and the offset at 0 (reset) or -(height / step + 1) * step |
| ScrollProperties.ScrollOffHundredPixels | autoscrolllib/src/main/java/io/github/engrzhou/autoscrolllib/AutoVerticalScrollTextView.java:243-271 | a 100-pixel text with step 5 and no reset: 21 ticks, renders at -5 through -100 (strictly decreasing), then Stop, offset left at -105 |
| ScrollProperties.ScrollOffHundredPixelsWithReset | autoscrolllib/src/main/java/io/github/engrzhou/autoscrolllib/AutoVerticalScrollTextView.java:261-268 | the same text with `resetOnFinish`: final offset 0, the reset render comes just before Stop, and `isScrolling` is false |
| ScrollProperties.RunNotifications | autoscrolllib/src/main/java/io/github/engrzhou/autoscrolllib/AutoVerticalScrollTextView.java:243-268 | the listener hears exactly Prepare, Start and then Stop iff the cycle completed, in that order and once each; without a listener nothing is sent |
| ScrollProperties.StepZeroIsSilent | autoscrolllib/src/main/java/io/github/engrzhou/autoscrolllib/AutoVerticalScrollTextView.java:243-258 | with `step == 0` the loop exits at its first check: no tick, offset unchanged, no Stop, `isScrolling` stays true, only Prepare and Start are sent |
| ScrollProperties.ZeroHeightNeverCompletes | autoscrolllib/src/main/java/io/github/engrzhou/autoscrolllib/AutoVerticalScrollTextView.java:255-260 | with height 0 the completion branch is never taken; with a non-zero step and no stop request the loop ticks through every check it gets, so only `stop()` ends it |
| ScrollProperties.StopDuringDelay | autoscrolllib/src/main/java/io/github/engrzhou/autoscrolllib/AutoVerticalScrollTextView.java:243-255 | a flag set during the start delay still lets Prepare and Start through, then the cycle exits without ticking or changing the offset |
| Supervisor.Retire | autoscrolllib/src/main/java/io/github/engrzhou/autoscrolllib/AutoVerticalScrollTextView.java:208-210 | the runnable `resetThread` replaces ends up with its flag set and its identity kept; one already stopped is left as it was |
| Supervisor.StopRunnable | autoscrolllib/src/main/java/io/github/engrzhou/autoscrolllib/AutoVerticalScrollTextView.java:234-236 | `stop()` raises the flag of that runnable and keeps its identity |
| Supervisor.ResetThread | autoscrolllib/src/main/java/io/github/engrzhou/autoscrolllib/AutoVerticalScrollTextView.java:205-214 | the height becomes lineHeight * lineCount (Java `int`); the previous runnable is retired with its flag true, whether it was already set or set here; the new runnable has its flag clear and a fresh identity; offset and `isScrolling` are untouched |
| Supervisor.Reset | autoscrolllib/src/main/java/io/github/engrzhou/autoscrolllib/AutoVerticalScrollTextView.java:158-162 | `reset()` leaves offset 0 and a fresh runnable with its flag clear |
| Supervisor.OnLayout | autoscrolllib/src/main/java/io/github/engrzhou/autoscrolllib/AutoVerticalScrollTextView.java:175-180 | an unchanged layout changes nothing; a changed one installs a fresh runnable and keeps the offset |
| Supervisor.InitialWellformed | autoscrolllib/src/main/java/io/github/engrzhou/autoscrolllib/AutoVerticalScrollTextView.java:45 | a new widget has no runnable and satisfies the supervisor invariant |
| Supervisor.ResetThreadPreservesWellformed | autoscrolllib/src/main/java/io/github/engrzhou/autoscrolllib/AutoVerticalScrollTextView.java:205-213 | `resetThread` keeps the invariant: every replaced runnable is stopped, and identities increase in order of creation |
| Supervisor.AtMostOneLive | autoscrolllib/src/main/java/io/github/engrzhou/autoscrolllib/AutoVerticalScrollTextView.java:208-211 | under the invariant the only runnable with its flag clear is the current one, and no two runnables share an identity |
| Supervisor.ResetIsZeroedResetThread | autoscrolllib/src/main/java/io/github/engrzhou/autoscrolllib/AutoVerticalScrollTextView.java:158-162 | `reset()` and `resetThread` leave the same widget except for the offset, which `reset()` zeroes and `resetThread` keeps |
| Supervisor.TwoRestarts | autoscrolllib/src/main/java/io/github/engrzhou/autoscrolllib/AutoVerticalScrollTextView.java:205-213 | after two quick restarts, the runnable installed by the first is retired with its flag set, and only the second is live |
| Supervisor.RetiredRunnableIsInert | autoscrolllib/src/main/java/io/github/engrzhou/autoscrolllib/AutoVerticalScrollTextView.java:232-257 | a replaced runnable's loop, at its next flag check, exits with no tick, no event and no change to the view |
| Supervisor.ResetThenRun | autoscrolllib/src/main/java/io/github/engrzhou/autoscrolllib/AutoVerticalScrollTextView.java:158-162 | after `reset()` the new cycle starts from the top: with a positive step and height and no stop request it completes after the smallest n with n * step > height (no offset wrapping around), and with `resetOnFinish` ends at offset 0 |

## Left out

- Threads: `Thread` creation and `start()`, `TimeUnit.SECONDS.sleep(delayStart)`, `Thread.sleep(speed * 50)` and the `InterruptedException` handlers. Each sleep is a no-op and takes no time. `delayStart` and `speed` are carried in the configuration but affect nothing.
- Negative sleep: when `speed * 50` is negative, including after an `int` overflow, `Thread.sleep` throws an uncaught `IllegalArgumentException` after the first render. That ends the thread with `isScrolling` still true. The model treats the sleep as a no-op for every `speed`.
- `volatile` semantics and the race in which an old runnable and a new one both write `nowPoint` and `isScrolling`. One cycle runs at a time. The stop flag is an input sampled at each loop check. An old runnable is modelled only up to its next flag check (`Supervisor.RetiredRunnableIsInert`).
- Per-iteration re-reads: the source reads the view fields `step`, `resetOnFinish`, `mScrollStatusListener` and `myHeight` again on every iteration. The model takes one snapshot per cycle, so a setter call or a restart in the middle of a cycle is not modelled.
- Android view plumbing: `onDraw`, `onMeasure`, `resetTextParams` with its `StaticLayout` and `TextPaint`, `requestLayout` inside `reset()`, `TypedArray` attribute parsing in `init`, and the constructors. `postInvalidate` appears only as an `Invalidate` event, which records the offset it asks to paint.
- Getters and setters for `delayStart`, `resetOnFinish`, `step`, `speed`, the listener and `isScrolling`. They read or write a field and nothing else.
- Unbounded runs: the stop schedule is a finite sequence. A loop that would run forever, with height 0 and no stop, shows up as exit `Pending` after every check it was given.
- ScrollProperties.RunFromRest: proved only when `n * step <= 2^31`, that is when the last offset `-n * step` does not wrap around. The loop itself is modelled with wrap-around, but nothing is proved about runs that wrap.
- ScrollProperties.LoopFromRest: same no-wrap-around bound as RunFromRest.
- ScrollProperties.LoopCompletes: proved only when `nowPoint - n * step` stays at or above `Integer.MIN_VALUE`, so that no offset wraps around.
- Supervisor.ResetThenRun: same no-wrap-around bound as RunFromRest, on the recomputed height.
- ScrollProperties.TicksFromRest: requires `myHeight + step <= 2^31`. This is a sufficient condition for no wrap-around and slightly stronger than the exact one, `(myHeight / step + 1) * step <= 2^31`. A height of `Integer.MAX_VALUE` with step 2 never wraps but is not covered. RunFromRest covers it.
- ScrollProperties.DescentClosedForm: the closed form and strict decrease are stated only while `p - n * step` stays at or above `Integer.MIN_VALUE`.
- ScrollProperties.OffsetAfterExact: same bound as DescentClosedForm.
