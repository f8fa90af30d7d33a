/** The range-over-channel exercise of Concurrency/5-Range.go: a Fibonacci
    producer and a `for v := range ch` consumer. */
module RangeChannels {
  import opened Channels
  import opened Loops

  function Fib(n: nat): (r: nat)
  {
    if n < 2 then n else Fib(n - 1) + Fib(n - 2)
  }

  /** The first `n` Fibonacci numbers, from `Fib(0) = 0`. */
  function FibSeq(n: nat): (r: seq<nat>)
    ensures |r| == n
    ensures forall k :: 0 <= k < n ==> r[k] == Fib(k)
  {
    seq(n, k requires 0 <= k => Fib(k))
  }

  /** fibonacci: sends the first `n` Fibonacci numbers in order, then closes
      the channel (at once when `n` is not positive).  The model runs the
      whole producer before the consumer, so the channel must have room. */
  method Fibonacci(n: int, ch: Channel<int>)
    requires ch.Valid() && !ch.closed && |ch.buf| + Iterations(n) <= ch.cap
    modifies ch
    ensures ch.Valid() && ch.closed
    ensures ch.buf == old(ch.buf) + FibSeq(Iterations(n))
  {
    var x, y := 0, 1;
    for i := 0 to Iterations(n)
      invariant ch.Valid() && !ch.closed
      invariant x == Fib(i) && y == Fib(i + 1)
      invariant ch.buf == old(ch.buf) + FibSeq(i)
    {
      ch.Send(x);
      assert FibSeq(i + 1) == FibSeq(i) + [x];
      x, y := y, x + y;
    }
    ch.Close();
  }

  /** `for v := range ch`: receives every buffered value in order and stops
      exactly when the channel is closed and drained. */
  method Range(ch: Channel<int>) returns (items: seq<int>)
    requires ch.Valid() && ch.closed
    modifies ch
    ensures ch.Valid() && ch.closed && ch.buf == []
    ensures items == old(ch.buf)
  {
    items := [];
    while true
      invariant ch.Valid() && ch.closed
      invariant old(ch.buf) == items + ch.buf
      decreases |ch.buf|
    {
      var v, ok := ch.Receive();
      if !ok {
        break;
      }
      items := items + [v];
    }
  }

  /** concurrrentFib: what the range loop prints is the first `n` Fibonacci
      numbers, in order. */
  method ConcurrentFib(n: int) returns (printed: seq<int>)
    ensures |printed| == Iterations(n)
    ensures forall k :: 0 <= k < |printed| ==> printed[k] == Fib(k)
  {
    var ch := new Channel(Iterations(n), 0);
    Fibonacci(n, ch);
    printed := Range(ch);
  }

  /** The first run of the harness prints these ten numbers. */
  lemma FirstTen()
    ensures FibSeq(10) == [0, 1, 1, 2, 3, 5, 8, 13, 21, 34]
  {
    assert Fib(2) == 1 && Fib(3) == 2 && Fib(4) == 3 && Fib(5) == 5;
    assert Fib(6) == 8 && Fib(7) == 13 && Fib(8) == 21 && Fib(9) == 34;
  }
}
