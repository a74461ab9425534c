# Traffic light phase controller

A model of the sequential core of the traffic light in the CppND traffic
simulation. The light toggles between red and green on a randomised timer.
Each new phase is published into a message queue. Observers block in
`waitForGreen` until a green phase is received from that queue.

The model has four modules:

- `Phases` (`phases.dfy`): the `Phase` datatype and the toggle table `_getNextPhaseAfter`.
- `MessageQueues` (`message_queue.dfy`): `MessageQueue<T>` as an immutable sequence.
  `send` appends at the back. `receive` removes from the back, so the queue is a
  stack (last in, first out), not a FIFO. The model follows the code, which pops the back element.
- `TrafficLights` (`traffic_light.dfy`): the light, holding its phase and its queue.
  Also the constructor, `getCurrentPhase` and `waitForGreen`.
- `Cycling` (`cycling.dfy`): `cycleThroughPhases`. It holds the loop's timer
  variables, and one pass of its `while (true)` loop is a step function. A run is a
  sequence of passes at readings of an abstract millisecond clock.

Blocking is replaced by preconditions:

- The condition-variable wait in `receive` becomes "the queue is non-empty".
- The drain in `waitForGreen`, which waits for the cycling thread to send a green, becomes "the queue holds a green".
- `send` inside `std::async` is awaited at once with `ftr.wait()`, so it is a plain append.

## Model

| member | source | states |
|---|---|---|
| Phases.Toggle | src/TrafficLight.cpp:121-125 | Looking a phase up in the toggle table always succeeds and yields a different phase. |
| Phases.TableIsTotal | src/TrafficLight.cpp:122-125 | The toggle table has an entry for each of the two phases. |
| Phases.ToggleSwaps | src/TrafficLight.cpp:122-125 | Red maps to green and green maps to red. |
| Phases.ToggleIsInvolution | src/TrafficLight.cpp:122-125 | Toggling twice gives back the starting phase. |
| Phases.PhaseAfterTogglesParity | src/TrafficLight.cpp:104 | Starting from red, an even number of toggles gives red and an odd number gives green. |
| MessageQueues.Send | src/TrafficLight.cpp:26-38 | The message goes at the back. Every buffered message keeps its place. The multiset of messages gains exactly the new one. |
| MessageQueues.Receive | src/TrafficLight.cpp:8-24 | Needs a non-empty queue. Returns the most recently sent message. What remains plus that message, appended, is the original queue, so nothing is lost or duplicated. |
| MessageQueues.SendThenReceive | src/TrafficLight.cpp:8-38 | Sending a message and then receiving returns that same message and restores the queue. |
| MessageQueues.ReceiveThenSend | src/TrafficLight.cpp:8-38 | Receiving and then re-sending the received message restores the queue. |
| MessageQueues.SendAll | src/TrafficLight.cpp:26-38 | Repeated sends append the messages in the order they were sent. |
| MessageQueues.ReceiveN | src/TrafficLight.cpp:8-24 | Receiving n messages returns the last n messages of the queue, newest first, and leaves the front part in place. The messages received plus those left are exactly the original ones. |
| MessageQueues.LastInFirstOut | src/TrafficLight.cpp:8-38 | Sending a batch and then receiving as many messages yields the batch newest first and leaves the original queue. |
| TrafficLights.NewTrafficLight | src/TrafficLight.cpp:42-48 | A new light shows red and its queue is empty. |
| TrafficLights.WaitForGreen | src/TrafficLight.cpp:50-61 | Needs a green in the queue. Removes the queue's back part down to and including the last green. Every message it discards is red. It leaves the light's phase alone, so a light already showing green still waits for a published green. |
| Cycling.StartCycling | src/TrafficLight.cpp:85-91 | The loop's cycle length is the value drawn, which lies in [4000, 6000] ms. The stop watch is set to the start time. The light is untouched. |
| Cycling.Step | src/TrafficLight.cpp:94-118 | If strictly more than the cycle length has passed, the pass toggles the phase and appends the new phase to the queue. Otherwise it changes nothing. The loop's cycle length and stop watch never change. |
| Cycling.Run | src/TrafficLight.cpp:78-119 | Over any sequence of passes, the timer stays as first set. Earlier messages stay at the front of the queue. |
| Cycling.PublishKeepsAlternation | src/TrafficLight.cpp:101-112 | A toggle-and-send keeps the invariant that the i-th message is the phase after i+1 toggles and the light shows the phase after as many toggles as it has published. |
| Cycling.RunKeepsAlternation | src/TrafficLight.cpp:94-118 | Every run of the loop keeps that invariant. |
| Cycling.CyclingPublishesAlternatingPhases | src/TrafficLight.cpp:94-112 | A new light that starts cycling publishes green, red, green, and so on. The first message is green and each next message is the toggle of the one before. |
| Cycling.CurrentPhaseIsLastPublished | src/TrafficLight.cpp:63-66 | If no observer drains the queue, the phase read from a cycling light is the last one it published. While it has published nothing, that phase is red. |
| Cycling.TimerIsNeverReset | src/TrafficLight.cpp:114-116 | However many passes run, the cycle length stays the first value drawn and the stop watch stays at the start time. |
| Cycling.ShadowedTimerRetoggles | src/TrafficLight.cpp:101-116 | Once the timer has expired, a pass at any later clock reading toggles and publishes again. |
| Cycling.EveryPassAfterExpiryToggles | src/TrafficLight.cpp:94-117 | After the first expiry, each pass at a clock reading no earlier than it publishes exactly one more phase. |
| Cycling.ShadowedTimerExample | src/TrafficLight.cpp:114-116 | Take a 4000 ms cycle started at 0. Passes at 4001 ms and 4002 ms publish green and then red, one millisecond apart. |
| Cycling.StepIntended | src/TrafficLight.cpp:114-116 | This is the pass as the comment at line 114 describes it. On expiry it toggles and publishes, then restarts the timer with the new cycle length at the current time. |
| Cycling.RunIntended | src/TrafficLight.cpp:94-117 | Over any sequence of corrected passes, earlier messages stay at the front of the queue. |
| Cycling.RunIntendedKeepsAlternation | src/TrafficLight.cpp:94-117 | The corrected loop keeps the same alternation invariant. |
| Cycling.IntendedStepSpacesToggles | src/TrafficLight.cpp:114-116 | After a toggle, the corrected loop does not expire again within 4000 ms. |

## Findings

| source | as written | input that shows it | evidently intended | confidence | as-written member | corrected member |
|---|---|---|---|---|---|---|
| src/TrafficLight.cpp:115-116 | `int cycle_duration_ms` and `auto last_update` are redeclared inside the `if`. They shadow the loop's own variables, so the timer is never reset. | Take a cycle length of 4000 ms started at clock 0. The passes at 4001 ms and 4002 ms both toggle, publishing green and then red 1 ms apart. After the first expiry the light toggles on every pass. | The comment at line 114 says the stop watch is reset and a new cycle length drawn, so toggles should be 4 to 6 s apart. | high; not executed | Cycling.ShadowedTimerRetoggles | Cycling.IntendedStepSpacesToggles |

`Cycling.Step` and `Cycling.Run` model the loop as written. `Cycling.StepIntended` and `Cycling.RunIntended` model the corrected loop. Two properties are proved for both: the phases alternate, and each toggle is published in order. Spacing between toggles holds only for the corrected loop.

## Left out

- Mutex, condition variable and `notify_one` in `MessageQueue`: blocking becomes a precondition. Interleavings of threads are not modelled.
- `simulate` and the base class's `threads` vector (src/TrafficLight.cpp:68-75): they only start a thread. The model starts the loop with `Cycling.StartCycling`.
- `std::async`/`std::future`: the send is awaited at once, so it is modelled as a direct append.
- `std::random_device`, `mt19937` and `uniform_int_distribution`: each drawn cycle length is a parameter limited to [4000, 6000]. The distribution is not modelled. In the as-written loop the second draw is thrown away, so `Cycling.Step` takes no draw at all.
- `system_clock::now()` and `sleep_for(1ms)`: they are replaced by integer millisecond clock readings, one per pass. The clock readings need not increase. The lemmas that need readings to be no earlier than a given time state that as a requirement. Truncation by `duration_cast` and `long`/`int` widths are not modelled, because real clock differences stay far from overflow. Cycling.StepIntended resets the stop watch to the same reading used for the expiry test, whereas a corrected line 116 would call `now()` again after `sleep_for` and the awaited send. A later reset only widens the gap to the next toggle, so `Cycling.IntendedStepSpacesToggles` still holds for it.
- Cycling.Run: runs have no receives interleaved between passes. If an observer receives between two passes, the queue no longer follows the strict alternation, though the published phases still do.
- TrafficLights.WaitForGreen: in the code the call blocks until a green is sent, because `receive` waits on the condition variable until the cycling thread sends again. The sequential model has no concurrent sender, so it requires a green already in the queue.
- Races between several concurrent `waitForGreen` callers, and the unsynchronised read of `_currentPhase` in `getCurrentPhase`, are concurrency properties and are not modelled.
- TrafficLight.h is not part of this model. Only the member declarations used in src/TrafficLight.cpp are assumed.
