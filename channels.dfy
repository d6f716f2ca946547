/**
 * A buffered Go channel, `make(chan T, n)`, as main.go uses it: the result
 * channels of a round and of the speed phase (main.go:81, 137) and the
 * `thread` semaphores that bound the number of goroutines (main.go:82, 139).
 * The buffer is a FIFO queue of at most `cap` elements. A send into a full
 * buffer would block; here it is a precondition, so every caller has to show
 * that there is room, or detect that there is none and report the deadlock.
 */
module Channels {

  class Channel<T> {
    /** The buffered elements, oldest first. */
    var buf: seq<T>
    /** The capacity given to `make`. */
    const cap: nat

    ghost predicate Valid()
      reads this
    {
      |buf| <= cap
    }

    /** `make(chan T, cap)`: an empty buffer of the given capacity. */
    constructor (cap: nat)
      ensures this.cap == cap && buf == [] && Valid()
    {
      this.cap := cap;
      buf := [];
    }

    /** `len(ch)`: the number of buffered elements. */
    function Len(): (n: nat)
      reads this
      ensures n == |buf|
    {
      |buf|
    }

    /** A send would block: the buffer holds `cap` elements already. */
    predicate Full()
      reads this
      requires Valid()
      ensures Full() <==> !(|buf| < cap)
    {
      |buf| == cap
    }

    /** `ch <- x` on a channel with room: `x` goes to the back of the queue. */
    method Send(x: T)
      requires Valid() && |buf| < cap
      modifies this
      ensures Valid() && buf == old(buf) + [x]
    {
      buf := buf + [x];
    }

    /** `<-ch` on a non-empty channel: the oldest element leaves the queue. */
    method Receive() returns (x: T)
      requires Valid() && buf != []
      modifies this
      ensures Valid() && x == old(buf)[0] && buf == old(buf)[1..]
    {
      x := buf[0];
      buf := buf[1..];
    }

    /**
     * `for x := range ch` after `close(ch)`: every buffered element, in the
     * order it was sent, and the channel is left empty.
     */
    method Drain() returns (xs: seq<T>)
      requires Valid()
      modifies this
      ensures Valid() && xs == old(buf) && buf == []
    {
      xs := [];
      while buf != []
        invariant Valid() && xs + buf == old(buf)
        decreases |buf|
      {
        var x := Receive();
        xs := xs + [x];
      }
    }
  }
}
