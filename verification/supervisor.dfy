/** The restart side of AutoVerticalScrollTextView: resetThread, reset and
    the layout hook, which retire the running MarqueeRunnable and install a
    fresh one. Thread creation and start are not modelled; the new runnable's
    cycle is what ScrollCycle.Run describes. */
module Supervisor {
  import opened JavaInt
  import opened ScrollCycle
  import ScrollProperties

  /** A MarqueeRunnable: which one it is (in order of creation) and its
      `finished` stop flag. */
  datatype Runnable = Runnable(id: nat, finished: bool)

  datatype Option<T> = None | Some(value: T)

  /** The widget state the supervisor manages: the view fields, the current
      runnable (`mMarqueeRunnable`, absent until the first restart), the
      runnables it replaced, oldest first, and the identity the next one gets. */
  datatype Widget = Widget(view: View, current: Option<Runnable>, retired: seq<Runnable>, nextId: nat)

  /** A freshly constructed widget: offset and height 0, not scrolling, no runnable. */
  const Initial: Widget := Widget(View(0, 0, false), None, [], 0)

  /** MarqueeRunnable.stop(): raise the flag of this runnable and of no other. */
  function StopRunnable(r: Runnable): (r': Runnable)
    ensures r'.finished
    ensures r'.id == r.id
  {
    r.(finished := true)
  }

  /** The runnable resetThread leaves behind: stopped unless already stopped. */
  function Retire(r: Runnable): (r': Runnable)
    ensures r'.finished && r'.id == r.id
    ensures r.finished ==> r' == r
  {
    if !r.finished then StopRunnable(r) else r
  }

  /** resetThread: recompute the height as lineHeight * lineCount (Java `int`
      product), stop the current runnable if it is not finished, and install a
      new runnable with its flag clear. The offset is not touched. */
  function ResetThread(w: Widget, lineHeight: int32, lineCount: int32): (w': Widget)
    ensures Congruent(lineHeight * lineCount, w'.view.myHeight)
    ensures InRange(lineHeight * lineCount) ==> w'.view.myHeight == lineHeight * lineCount
    ensures w'.view.nowPoint == w.view.nowPoint
    ensures w'.view.isScrolling == w.view.isScrolling
    ensures w'.current.Some? && !w'.current.value.finished
    ensures w'.current.value.id == w.nextId < w'.nextId
    ensures w.current.None? ==> w'.retired == w.retired
    ensures w.current.Some? ==>
              && |w'.retired| == |w.retired| + 1
              && w'.retired[..|w.retired|] == w.retired
              && w'.retired[|w.retired|].id == w.current.value.id
              && w'.retired[|w.retired|].finished
  {
    var retired := match w.current
      case None => w.retired
      case Some(r) => w.retired + [Retire(r)];
    Widget(w.view.(myHeight := Mul(lineHeight, lineCount)),
           Some(Runnable(w.nextId, false)), retired, w.nextId + 1)
  }

  /** reset(): zero the offset, then resetThread (through resetStatus). The
      text-layout rebuild between them is not modelled. */
  function Reset(w: Widget, lineHeight: int32, lineCount: int32): (w': Widget)
    ensures w'.view.nowPoint == 0
    ensures w'.current.Some? && !w'.current.value.finished
  {
    ResetThread(w.(view := w.view.(nowPoint := 0)), lineHeight, lineCount)
  }

  /** onLayout: a changed layout restarts through resetStatus; an unchanged
      one leaves everything as it is. */
  function OnLayout(w: Widget, changed: bool, lineHeight: int32, lineCount: int32): (w': Widget)
    ensures !changed ==> w' == w
    ensures changed ==> w'.current.Some? && !w'.current.value.finished && w'.view.nowPoint == w.view.nowPoint
  {
    if changed then ResetThread(w, lineHeight, lineCount) else w
  }

  /** The supervisor's invariant: every replaced runnable has its flag set,
      and identities increase in order of creation, the current one last. */
  predicate Wellformed(w: Widget) {
    && (forall i :: 0 <= i < |w.retired| ==> w.retired[i].finished)
    && (forall i :: 0 <= i < |w.retired| ==> w.retired[i].id < w.nextId)
    && (forall i, j :: 0 <= i < j < |w.retired| ==> w.retired[i].id < w.retired[j].id)
    && (w.current.Some? ==>
          && w.current.value.id < w.nextId
          && forall i :: 0 <= i < |w.retired| ==> w.retired[i].id < w.current.value.id)
  }

  /** Every runnable the widget has created, oldest first. */
  function Runnables(w: Widget): (rs: seq<Runnable>) {
    match w.current
    case None => w.retired
    case Some(r) => w.retired + [r]
  }

  lemma InitialWellformed()
    ensures Wellformed(Initial)
    ensures Runnables(Initial) == []
  {
  }

  /** resetThread keeps the invariant. */
  lemma ResetThreadPreservesWellformed(w: Widget, lineHeight: int32, lineCount: int32)
    requires Wellformed(w)
    ensures Wellformed(ResetThread(w, lineHeight, lineCount))
  {
    var w' := ResetThread(w, lineHeight, lineCount);
    if w.current.Some? {
      var n := |w.retired|;
      forall i | 0 <= i < |w'.retired|
        ensures w'.retired[i].finished && w'.retired[i].id < w'.nextId
        ensures w'.retired[i].id < w'.current.value.id
      {
        if i < n {
          assert w'.retired[i] == w'.retired[..n][i] == w.retired[i];
        }
      }
      forall i, j | 0 <= i < j < |w'.retired|
        ensures w'.retired[i].id < w'.retired[j].id
      {
        assert w'.retired[i] == w'.retired[..n][i] == w.retired[i];
        if j < n {
          assert w'.retired[j] == w'.retired[..n][j] == w.retired[j];
        }
      }
    }
  }

  /** In a well-formed widget at most one runnable is live: the current one. */
  lemma AtMostOneLive(w: Widget)
    requires Wellformed(w)
    ensures forall i :: 0 <= i < |Runnables(w)| && !Runnables(w)[i].finished
              ==> w.current.Some? && Runnables(w)[i] == w.current.value
    ensures forall i, j :: 0 <= i < j < |Runnables(w)| ==> Runnables(w)[i].id != Runnables(w)[j].id
  {
    var rs := Runnables(w);
    if w.current.Some? {
      forall i | 0 <= i < |rs| - 1
        ensures rs[i] == w.retired[i]
      {
      }
    }
  }

  /** reset() is resetThread with the offset zeroed first: the two leave the
      same widget except for the offset. */
  lemma ResetIsZeroedResetThread(w: Widget, lineHeight: int32, lineCount: int32)
    ensures var r := Reset(w, lineHeight, lineCount);
      var t := ResetThread(w, lineHeight, lineCount);
      && r.view.nowPoint == 0
      && t.view.nowPoint == w.view.nowPoint
      && r == t.(view := t.view.(nowPoint := 0))
  {
  }

  /** Two restarts in quick succession: the runnable installed by the first
      ends up retired with its flag set, and only the second is live. */
  lemma TwoRestarts(w: Widget, h1: int32, c1: int32, h2: int32, c2: int32)
    requires Wellformed(w)
    ensures var w1 := ResetThread(w, h1, c1);
      var w2 := ResetThread(w1, h2, c2);
      && Wellformed(w2)
      && |w2.retired| >= 1
      && w2.retired[|w2.retired| - 1] == Runnable(w1.current.value.id, true)
      && w2.current.value.id != w1.current.value.id
      && (forall i :: 0 <= i < |Runnables(w2)| && !Runnables(w2)[i].finished
            ==> Runnables(w2)[i] == w2.current.value)
  {
    var w1 := ResetThread(w, h1, c1);
    ResetThreadPreservesWellformed(w, h1, c1);
    ResetThreadPreservesWellformed(w1, h2, c2);
    AtMostOneLive(ResetThread(w1, h2, c2));
  }

  /** A retired runnable's loop, at its next flag check, exits without a tick,
      an event or any change to the view. */
  lemma RetiredRunnableIsInert(w: Widget, i: nat, cfg: Config, v: View, stops: seq<bool>)
    requires Wellformed(w)
    requires i < |w.retired| && |stops| > 0
    ensures var o := Loop(cfg, v, w.retired[i].finished, stops);
      o.exit == Stopped && o.ticks == 0 && o.trace == [] && o.view == v
  {
  }

  /** After reset() the new cycle scrolls from the top: with a positive step,
      a positive recomputed height and no stop request it completes after the
      n ticks of RunFromRest and, with resetOnFinish, ends at offset 0. */
  lemma ResetThenRun(w: Widget, lineHeight: int32, lineCount: int32,
                     cfg: Config, stops: seq<bool>, n: int)
    requires cfg.step > 0
    requires 0 < lineHeight * lineCount && n * cfg.step <= -MIN_VALUE
    requires (n - 1) * cfg.step <= lineHeight * lineCount < n * cfg.step
    requires |stops| >= n
    requires forall i :: 0 <= i < |stops| ==> !stops[i]
    ensures var o := Run(cfg, Reset(w, lineHeight, lineCount).view, stops);
      && o.exit == Completed
      && o.ticks == n
      && !o.view.isScrolling
      && (cfg.resetOnFinish ==> o.view.nowPoint == 0)
  {
    var v := Reset(w, lineHeight, lineCount).view;
    ScrollProperties.RunFromRest(cfg, v, stops, n);
  }
}
