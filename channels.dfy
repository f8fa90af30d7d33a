/** A Go channel seen one operation at a time: a FIFO buffer with a
    capacity and a closed flag.  An operation that would block in Go (a send
    on a full buffer, a receive on an empty open one) is excluded by its
    precondition; sending on or closing a closed channel panics in Go and is
    excluded the same way. */
module Channels {

  class Channel<T> {
    var buf: seq<T>
    const cap: nat
    var closed: bool
    /** The zero value of `T`, which a receive on a closed, drained channel
        yields. */
    const zero: T

    ghost predicate Valid()
      reads this
    {
      |buf| <= cap
    }

    /** `make(chan T, cap)` */
    constructor (cap: nat, zero: T)
      ensures Valid() && buf == [] && !closed && this.cap == cap && this.zero == zero
    {
      buf := [];
      this.cap := cap;
      closed := false;
      this.zero := zero;
    }

    /** `ch <- v`: only when the buffer has room, and never on a closed
        channel. */
    method Send(v: T)
      requires Valid() && !closed && |buf| < cap
      modifies this`buf
      ensures Valid() && buf == old(buf) + [v]
    {
      buf := buf + [v];
    }

    /** `v, ok := <-ch`: the oldest buffered value with `ok`, even after the
        channel is closed; on a closed, drained channel the zero value
        without `ok`. */
    method Receive() returns (v: T, ok: bool)
      requires Valid() && (buf != [] || closed)
      modifies this`buf
      ensures Valid()
      ensures ok <==> old(buf) != []
      ensures ok ==> v == old(buf)[0] && buf == old(buf)[1..]
      ensures !ok ==> v == zero && buf == old(buf)
    {
      if buf != [] {
        v, ok := buf[0], true;
        buf := buf[1..];
      } else {
        v, ok := zero, false;
      }
    }

    /** `close(ch)`: once only. */
    method Close()
      requires !closed
      modifies this`closed
      ensures closed
    {
      closed := true;
    }
  }
}
