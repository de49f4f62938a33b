/** The log batcher `FutureRace`: a future that drains a channel of events
    into a buffer and completes with the batch when the buffer fills, the
    timer fires, the shutdown signal arrives or the channel closes. */
module LoggerFutures {
  import opened Wrappers

  /** The batch size at which the buffer is handed over. */
  const MAX_CAP: nat := 100
  /** The timer, in seconds: an hour. */
  const WAIT: nat := 60 * 60

  class FutureRace<T> {
    /** The buffer; taken (`None`) once the future has completed. */
    var events: Option<seq<T>>

    /** A buffer still held is below the cap. */
    predicate Valid()
      reads this
    {
      events.Some? ==> |events.value| < MAX_CAP
    }

    /** `FutureRace::new`: an empty buffer. */
    constructor()
      ensures events == Some([]) && Valid()
    {
      events := Some([]);
    }

    /** `poll`. `timerReady` and `termReady` are whether the timer and the
        shutdown signal have fired; `queued` are the events waiting in the
        channel, in arrival order, and `closed` whether the channel is closed
        behind them. `received` is how many of them this poll takes. */
    method Poll(timerReady: bool, termReady: bool, queued: seq<T>, closed: bool)
      returns (r: Poll<Option<seq<T>>>, received: nat)
      requires Valid()
      modifies this
      ensures Valid()
      // the timer, then the shutdown signal, hand over the batch before anything is received
      ensures timerReady || termReady ==> r == Ready(old(events)) && events == None && received == 0
      // the events are appended in arrival order and the full batch is handed over at the cap
      ensures !timerReady && !termReady && old(events).Some? && |old(events).value| + |queued| >= MAX_CAP ==>
                && received == MAX_CAP - |old(events).value|
                && r == Ready(Some(old(events).value + queued[..received])) && events == None
      // below the cap everything queued is taken; a closed channel hands over the batch
      ensures !timerReady && !termReady && old(events).Some? && |old(events).value| + |queued| < MAX_CAP ==>
                && received == |queued|
                && (closed ==> r == Ready(Some(old(events).value + queued)) && events == None)
                && (!closed ==> r == Pending && events == Some(old(events).value + queued))
      // once the buffer is taken, received events are dropped
      ensures !timerReady && !termReady && old(events).None? ==>
                received == |queued| && events == None && r == (if closed then Ready(None) else Pending)
    {
      if timerReady {
        r := Ready(events);
        events := None;
        received := 0;
        return;
      }
      received := 0;
      assert queued[..0] == [];
      assert old(events).Some? ==> old(events).value + [] == old(events).value;
      while true
        invariant 0 <= received <= |queued|
        invariant events == (if old(events).Some? then Some(old(events).value + queued[..received]) else None)
        invariant Valid()
        invariant received > 0 ==> !termReady
        decreases |queued| - received
      {
        if termReady {
          r := Ready(events);
          events := None;
          return;
        }
        if received < |queued| {
          var event := queued[received];
          assert queued[..received + 1] == queued[..received] + [event];
          received := received + 1;
          if events.Some? {
            assert events.value + [event] == old(events).value + queued[..received];
            events := Some(events.value + [event]);
            if |events.value| >= MAX_CAP {
              r := Ready(events);
              events := None;
              return;
            }
          }
        } else if closed {
          assert queued[..received] == queued;
          r := Ready(events);
          events := None;
          return;
        } else {
          assert queued[..received] == queued;
          r := Pending;
          return;
        }
      }
    }
  }
}
