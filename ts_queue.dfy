/**
 * The pipeline's thread-safe FIFO with a one-way "finished" signal
 * (lib/TSQueue.hpp). The mutex and condition variable only serialise the
 * operations below; the model runs them one at a time and turns the wait of
 * `pop` into its precondition.
 */
module Queue {

  class TSQueue<T> {
    /** `m_queue`: the buffered items, front first. */
    var items: seq<T>
    /** `m_finished`: set once by `setFinished`, never cleared. */
    var finished: bool

    constructor ()
      ensures items == [] && !finished
    {
      items := [];
      finished := false;
    }

    /** Marks end of stream; the buffer keeps everything not yet popped. */
    method SetFinished()
      modifies this
      ensures finished
      ensures items == old(items)
    {
      finished := true;
    }

    /** Appends at the tail; the flag is untouched. */
    method Push(item: T)
      modifies this
      ensures items == old(items) + [item]
      ensures finished == old(finished)
    {
      items := items + [item];
    }

    /**
     * Removes and yields the head while items remain, even after
     * `SetFinished`; reports end of stream (`false`, `item` left as it was)
     * only once the queue is finished and drained. The caller's wait for
     * "non-empty or finished" is the precondition.
     */
    method Pop(item: T) returns (ok: bool, out: T)
      requires items != [] || finished
      modifies this
      ensures ok <==> old(items) != []
      ensures ok ==> out == old(items)[0] && items == old(items)[1..]
      ensures !ok ==> out == item && items == old(items) && finished
      ensures finished == old(finished)
    {
      if finished && items == [] {
        return false, item;
      }
      out := items[0];
      items := items[1..];
      ok := true;
    }

    method Empty() returns (e: bool)
      ensures e <==> items == []
    {
      e := |items| == 0;
    }

    method Size() returns (n: nat)
      ensures n == |items|
    {
      n := |items|;
    }
  }

  /**
   * A producer pushes `xs` and then finishes the queue; a consumer then pops
   * until end of stream. It receives exactly `xs`, in push order, and end of
   * stream comes only after the last of them.
   */
  method PushFinishDrain<T>(xs: seq<T>, init: T) returns (delivered: seq<T>, endOfStream: bool)
    ensures delivered == xs
    ensures endOfStream
  {
    var q := new TSQueue<T>();
    for i := 0 to |xs|
      invariant q.items == xs[..i] && !q.finished
    {
      q.Push(xs[i]);
    }
    q.SetFinished();
    delivered := [];
    var item := init;
    var ok := true;
    while ok
      invariant q.finished
      invariant ok ==> delivered + q.items == xs
      invariant !ok ==> delivered == xs && q.items == []
      decreases |q.items|, ok
    {
      ok, item := q.Pop(item);
      if ok {
        delivered := delivered + [item];
      }
    }
    endOfStream := !ok;
  }
}
