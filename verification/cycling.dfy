/** The background loop that toggles a light on a randomised timer.
    One pass of the loop is a step taken at an abstract millisecond clock
    reading; the random cycle duration is a parameter limited to the range
    the distribution draws from. */
module Cycling {

  import opened Phases
  import opened MessageQueues
  import opened TrafficLights

  const MinCycleMs: int := 4000
  const MaxCycleMs: int := 6000

  /** A duration the cycle-length distribution can draw. */
  predicate IsCycleDuration(ms: int)
  {
    MinCycleMs <= ms <= MaxCycleMs
  }

  /** The light together with the loop's timer: the drawn cycle length and
      the clock reading at which the stop watch was last reset. */
  datatype Cycler = Cycler(light: TrafficLight, cycleDurationMs: int, lastUpdateMs: int)

  /** Starts cycling: draws the first cycle length and starts the stop watch. */
  function StartCycling(l: TrafficLight, drawnMs: int, nowMs: int): (c: Cycler)
    requires IsCycleDuration(drawnMs)
    ensures c.light == l
    ensures c.cycleDurationMs == drawnMs
    ensures IsCycleDuration(c.cycleDurationMs)
    ensures c.lastUpdateMs == nowMs
  {
    Cycler(l, drawnMs, nowMs)
  }

  /** The timer has run out: strictly more than the cycle length has passed. */
  predicate Expired(c: Cycler, nowMs: int)
  {
    nowMs - c.lastUpdateMs > c.cycleDurationMs
  }

  /** `after` is `before` with its phase toggled and the new phase sent. */
  predicate Publishes(before: TrafficLight, after: TrafficLight)
  {
    && after.phase == Toggle(before.phase)
    && after.queue == Send(before.queue, after.phase)
  }

  /** One pass of the loop as the code is written. On expiry the phase is
      toggled and sent; the new cycle length and the stop-watch reset go to
      fresh local variables that shadow the loop's own, so the loop's timer
      is never reset. */
  function Step(c: Cycler, nowMs: int): (r: Cycler)
    ensures Expired(c, nowMs) ==> Publishes(c.light, r.light)
    ensures !Expired(c, nowMs) ==> r == c
    ensures r.cycleDurationMs == c.cycleDurationMs
    ensures r.lastUpdateMs == c.lastUpdateMs
  {
    if Expired(c, nowMs) then
      var next := Toggle(c.light.phase);
      c.(light := TrafficLight(next, Send(c.light.queue, next)))
    else
      c
  }

  /** One pass of the loop as its comment describes it: on expiry the timer
      is reset with a freshly drawn cycle length. */
  function StepIntended(c: Cycler, nowMs: int, redrawnMs: int): (r: Cycler)
    requires IsCycleDuration(redrawnMs)
    ensures Expired(c, nowMs) ==> Publishes(c.light, r.light)
    ensures Expired(c, nowMs) ==> r.cycleDurationMs == redrawnMs && r.lastUpdateMs == nowMs
    ensures !Expired(c, nowMs) ==> r == c
  {
    if Expired(c, nowMs) then
      var next := Toggle(c.light.phase);
      Cycler(TrafficLight(next, Send(c.light.queue, next)), redrawnMs, nowMs)
    else
      c
  }

  /** Passes of the loop at the clock readings `times`, in order. */
  function Run(c: Cycler, times: seq<int>): (r: Cycler)
    ensures r.cycleDurationMs == c.cycleDurationMs
    ensures r.lastUpdateMs == c.lastUpdateMs
    ensures |c.light.queue.items| <= |r.light.queue.items|
    ensures r.light.queue.items[..|c.light.queue.items|] == c.light.queue.items
    decreases |times|
  {
    if times == [] then c else Run(Step(c, times[0]), times[1..])
  }

  /** A clock reading with the cycle length the corrected loop would draw then. */
  datatype Tick = Tick(nowMs: int, redrawnMs: int)

  predicate AllCycleDurations(ticks: seq<Tick>)
  {
    forall i :: 0 <= i < |ticks| ==> IsCycleDuration(ticks[i].redrawnMs)
  }

  /** Passes of the corrected loop. */
  function RunIntended(c: Cycler, ticks: seq<Tick>): (r: Cycler)
    requires AllCycleDurations(ticks)
    ensures |c.light.queue.items| <= |r.light.queue.items|
    ensures r.light.queue.items[..|c.light.queue.items|] == c.light.queue.items
    decreases |ticks|
  {
    if ticks == [] then c
    else RunIntended(StepIntended(c, ticks[0].nowMs, ticks[0].redrawnMs), ticks[1..])
  }

  /** Everything a light has published, read from red: the i-th message is
      the phase after i+1 toggles, and the light shows the phase after as
      many toggles as it has published. */
  predicate PublishedAlternately(l: TrafficLight)
  {
    && (forall i :: 0 <= i < |l.queue.items| ==> l.queue.items[i] == PhaseAfterToggles(i + 1))
    && l.phase == PhaseAfterToggles(|l.queue.items|)
  }

  /** The base case of the alternation invariant: a new light shows red and
      has published nothing. */
  lemma NewLightPublishedAlternately()
    ensures PublishedAlternately(NewTrafficLight())
  {
  }

  lemma PublishKeepsAlternation(before: TrafficLight, after: TrafficLight)
    requires PublishedAlternately(before)
    requires Publishes(before, after)
    ensures PublishedAlternately(after)
  {
    var n := |before.queue.items|;
    assert after.queue.items == before.queue.items + [after.phase];
    assert after.queue.items[n] == PhaseAfterToggles(n + 1);
  }

  lemma {:induction false} RunKeepsAlternation(c: Cycler, times: seq<int>)
    requires PublishedAlternately(c.light)
    ensures PublishedAlternately(Run(c, times).light)
    decreases |times|
  {
    if times != [] {
      var c' := Step(c, times[0]);
      if Expired(c, times[0]) {
        PublishKeepsAlternation(c.light, c'.light);
      }
      RunKeepsAlternation(c', times[1..]);
    }
  }

  lemma {:induction false} RunIntendedKeepsAlternation(c: Cycler, ticks: seq<Tick>)
    requires AllCycleDurations(ticks)
    requires PublishedAlternately(c.light)
    ensures PublishedAlternately(RunIntended(c, ticks).light)
    decreases |ticks|
  {
    if ticks != [] {
      var c' := StepIntended(c, ticks[0].nowMs, ticks[0].redrawnMs);
      if Expired(c, ticks[0].nowMs) {
        PublishKeepsAlternation(c.light, c'.light);
      }
      RunIntendedKeepsAlternation(c', ticks[1..]);
    }
  }

  /** A new light that starts cycling publishes green, red, green, ... :
      the first message is green and consecutive messages always differ. */
  lemma CyclingPublishesAlternatingPhases(drawnMs: int, startMs: int, times: seq<int>)
    requires IsCycleDuration(drawnMs)
    ensures var l := Run(StartCycling(NewTrafficLight(), drawnMs, startMs), times).light;
      && (|l.queue.items| > 0 ==> l.queue.items[0] == Green)
      && (forall i :: 0 <= i < |l.queue.items| - 1 ==> l.queue.items[i + 1] == Toggle(l.queue.items[i]))
      && (forall i :: 0 <= i < |l.queue.items| ==> l.queue.items[i] == (if i % 2 == 0 then Green else Red))
  {
    var c := StartCycling(NewTrafficLight(), drawnMs, startMs);
    NewLightPublishedAlternately();
    RunKeepsAlternation(c, times);
    var l := Run(c, times).light;
    var q := l.queue.items;
    forall i | 0 <= i < |q|
      ensures q[i] == (if i % 2 == 0 then Green else Red)
    {
      PhaseAfterTogglesParity(i + 1);
    }
  }

  /** Reading the current phase of a cycling light that no observer has
      drained yields the phase it published last, or red while it has
      published nothing. */
  lemma CurrentPhaseIsLastPublished(drawnMs: int, startMs: int, times: seq<int>)
    requires IsCycleDuration(drawnMs)
    ensures var l := Run(StartCycling(NewTrafficLight(), drawnMs, startMs), times).light;
      GetCurrentPhase(l) == (if |l.queue.items| == 0 then Red else l.queue.items[|l.queue.items| - 1])
  {
    var c := StartCycling(NewTrafficLight(), drawnMs, startMs);
    NewLightPublishedAlternately();
    RunKeepsAlternation(c, times);
  }

  /** The loop's timer never changes after it is started: the cycle length
      stays the first one drawn and the stop watch is never reset. */
  lemma TimerIsNeverReset(l: TrafficLight, drawnMs: int, startMs: int, times: seq<int>)
    requires IsCycleDuration(drawnMs)
    ensures Run(StartCycling(l, drawnMs, startMs), times).cycleDurationMs == drawnMs
    ensures Run(StartCycling(l, drawnMs, startMs), times).lastUpdateMs == startMs
  {
  }

  /** Because the timer is never reset, once it has expired every later pass
      expires again and toggles once more. */
  lemma ShadowedTimerRetoggles(c: Cycler, nowMs: int, laterMs: int)
    requires Expired(c, nowMs)
    requires nowMs <= laterMs
    ensures Publishes(Step(c, nowMs).light, Step(Step(c, nowMs), laterMs).light)
  {
  }

  /** Over a whole run: after the first expiry, every pass at a clock reading
      no earlier than it publishes one more phase. */
  lemma {:induction false} EveryPassAfterExpiryToggles(c: Cycler, expiredMs: int, times: seq<int>)
    requires Expired(c, expiredMs)
    requires forall i :: 0 <= i < |times| ==> expiredMs <= times[i]
    ensures |Run(c, times).light.queue.items| == |c.light.queue.items| + |times|
    decreases |times|
  {
    if times != [] {
      EveryPassAfterExpiryToggles(Step(c, times[0]), expiredMs, times[1..]);
    }
  }

  /** A concrete run: with a 4000 ms cycle started at 0, the passes at 4001 ms
      and 4002 ms both toggle, publishing green and then red one millisecond
      apart. */
  lemma ShadowedTimerExample()
    ensures Run(StartCycling(NewTrafficLight(), 4000, 0), [4001, 4002]).light.queue.items == [Green, Red]
  {
    var c := StartCycling(NewTrafficLight(), 4000, 0);
    var c1 := Step(c, 4001);
    assert c1.light.queue.items == [Green];
    assert [4001, 4002][1..] == [4002];
    assert Run(c, [4001, 4002]) == Run(c1, [4002]);
  }

  /** The corrected loop never toggles twice within the shortest cycle: after
      a toggle at `nowMs`, no pass up to `MinCycleMs` later expires. */
  lemma IntendedStepSpacesToggles(c: Cycler, nowMs: int, redrawnMs: int, laterMs: int)
    requires IsCycleDuration(redrawnMs)
    requires Expired(c, nowMs)
    requires laterMs - nowMs <= MinCycleMs
    ensures !Expired(StepIntended(c, nowMs, redrawnMs), laterMs)
  {
  }
}
