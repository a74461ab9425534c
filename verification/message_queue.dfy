/** The message queue shared by a light's cycling task and its observers.
    Blocking is not modelled: `Receive` demands a non-empty queue instead of
    waiting for one. Messages leave from the back, so the queue is a stack. */
module MessageQueues {

  datatype Queue<T> = Queue(items: seq<T>)

  /** A message taken from a queue, with what is left behind. */
  datatype Received<T> = Received(msg: T, rest: Queue<T>)

  /** Appends `msg` at the back, keeping every buffered message in place. */
  function Send<T>(q: Queue<T>, msg: T): (r: Queue<T>)
    ensures |r.items| == |q.items| + 1
    ensures r.items[..|q.items|] == q.items
    ensures r.items[|q.items|] == msg
    ensures multiset(r.items) == multiset(q.items) + multiset{msg}
  {
    Queue(q.items + [msg])
  }

  /** Removes the most recently sent message. */
  function Receive<T>(q: Queue<T>): (r: Received<T>)
    requires |q.items| > 0
    ensures r.rest.items + [r.msg] == q.items
    ensures multiset(r.rest.items) + multiset{r.msg} == multiset(q.items)
  {
    var last := |q.items| - 1;
    assert q.items[..last] + [q.items[last]] == q.items;
    Received(q.items[last], Queue(q.items[..last]))
  }

  /** A send followed by a receive hands back the message just sent and
      restores the queue. */
  lemma SendThenReceive<T>(q: Queue<T>, msg: T)
    ensures Receive(Send(q, msg)) == Received(msg, q)
  {
  }

  /** A receive followed by re-sending the received message restores the queue. */
  lemma ReceiveThenSend<T>(q: Queue<T>)
    requires |q.items| > 0
    ensures Send(Receive(q).rest, Receive(q).msg) == q
  {
  }

  /** Sends the messages of `msgs` one after another. */
  function SendAll<T>(q: Queue<T>, msgs: seq<T>): (r: Queue<T>)
    ensures r.items == q.items + msgs
    decreases |msgs|
  {
    if msgs == [] then q
    else
      var r := SendAll(Send(q, msgs[0]), msgs[1..]);
      assert [msgs[0]] + msgs[1..] == msgs;
      r
  }

  /** Receives `n` messages one after another; the first component lists them
      in the order they were received, newest first. */
  function ReceiveN<T>(q: Queue<T>, n: nat): (r: (seq<T>, Queue<T>))
    requires n <= |q.items|
    ensures |r.0| == n
    ensures r.1.items == q.items[..|q.items| - n]
    ensures forall i :: 0 <= i < n ==> r.0[i] == q.items[|q.items| - 1 - i]
    ensures multiset(r.1.items) + multiset(r.0) == multiset(q.items)
    decreases n
  {
    if n == 0 then ([], q)
    else
      var first := Receive(q);
      var more := ReceiveN(first.rest, n - 1);
      var got := [first.msg] + more.0;
      ReceiveNextStep(q, n, first, more, got);
      (got, more.1)
  }

  /** The inductive step of `ReceiveN`: one receive in front of `n - 1` more. */
  lemma ReceiveNextStep<T>(q: Queue<T>, n: nat, first: Received<T>, more: (seq<T>, Queue<T>), got: seq<T>)
    requires 0 < n <= |q.items|
    requires first.rest.items + [first.msg] == q.items
    requires |more.0| == n - 1
    requires more.1.items == first.rest.items[..|first.rest.items| - (n - 1)]
    requires forall i :: 0 <= i < n - 1 ==> more.0[i] == first.rest.items[|first.rest.items| - 1 - i]
    requires got == [first.msg] + more.0
    ensures more.1.items == q.items[..|q.items| - n]
    ensures forall i :: 0 <= i < n ==> got[i] == q.items[|q.items| - 1 - i]
  {
    var rest := first.rest.items;
    assert rest == q.items[..|q.items| - 1];
    forall i | 0 <= i < n
      ensures got[i] == q.items[|q.items| - 1 - i]
    {
      if i > 0 {
        assert got[i] == more.0[i - 1];
      }
    }
  }

  /** Last in, first out: sending a batch and then receiving as many messages
      yields the batch newest first and leaves the original queue. */
  lemma LastInFirstOut<T>(q: Queue<T>, msgs: seq<T>)
    ensures ReceiveN(SendAll(q, msgs), |msgs|).1 == q
    ensures var got := ReceiveN(SendAll(q, msgs), |msgs|).0;
      forall i :: 0 <= i < |msgs| ==> got[i] == msgs[|msgs| - 1 - i]
  {
  }
}
