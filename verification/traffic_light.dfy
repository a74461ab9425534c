/** A traffic light: its current phase and the queue on which phase changes
    are published to observers. */
module TrafficLights {

  import opened Phases
  import opened MessageQueues

  datatype TrafficLight = TrafficLight(phase: Phase, queue: Queue<Phase>)

  /** A new light shows red and has published nothing yet. */
  function NewTrafficLight(): (l: TrafficLight)
    ensures l.phase == Red
    ensures |l.queue.items| == 0
  {
    TrafficLight(Red, Queue([]))
  }

  function GetCurrentPhase(l: TrafficLight): (p: Phase)
  {
    l.phase
  }

  /** Receives and discards published phases until a green one is received.
      Each receive takes the most recent message, so the call consumes the
      queue from its back down to and including the LAST green in it; every
      message it discards on the way is red. The phase of the light itself
      plays no part: a light that already shows green still waits for a
      published green. With no green queued the call would wait for the
      cycling task to send one; there is no concurrent sender here, so the
      caller must supply one. */
  method WaitForGreen(l: TrafficLight) returns (r: TrafficLight)
    requires Green in l.queue.items
    ensures r.phase == l.phase
    ensures |r.queue.items| < |l.queue.items|
    ensures r.queue.items == l.queue.items[..|r.queue.items|]
    ensures l.queue.items[|r.queue.items|] == Green
    ensures forall i :: |r.queue.items| < i < |l.queue.items| ==> l.queue.items[i] == Red
  {
    var q := l.queue;
    while true
      invariant Green in q.items
      invariant |q.items| <= |l.queue.items|
      invariant q.items == l.queue.items[..|q.items|]
      invariant forall i :: |q.items| <= i < |l.queue.items| ==> l.queue.items[i] == Red
      decreases |q.items|
    {
      var got := Receive(q);
      assert got.msg == q.items[|q.items| - 1];
      if got.msg == Green {
        return TrafficLight(l.phase, got.rest);
      }
      q := got.rest;
    }
  }
}
