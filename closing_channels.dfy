/** The closing-channel exercise of Concurrency/4-ClosingChannels.go:
    sendReports sends batch sizes and closes, countReports adds them up
    until the channel reports closed. */
module ClosingChannels {
  import opened Channels
  import opened Loops

  /** The values sendReports sends: batch `i` holds `i*23 + 32%17`
      reports, that is `i*23 + 15`. */
  function Reports(numBatches: nat): (r: seq<int>)
    ensures |r| == numBatches
    ensures forall i :: 0 <= i < numBatches ==> r[i] == i * 23 + 15
  {
    seq(numBatches, i => i * 23 + 32 % 17)
  }

  /** The total of a sequence, adding from the front as countReports does. */
  function Sum(s: seq<int>): (r: int)
  {
    if s == [] then 0 else Sum(s[..|s| - 1]) + s[|s| - 1]
  }

  /** The total of the reports of `n` batches, in closed form:
      `15n + 23n(n-1)/2`. */
  lemma {:induction false} SumReports(n: nat)
    ensures 2 * Sum(Reports(n)) == 23 * n * (n - 1) + 30 * n
  {
    if n > 0 {
      SumReports(n - 1);
      assert Reports(n)[..n - 1] == Reports(n - 1);
      assert 23 * n * (n - 1) == 23 * (n - 1) * (n - 2) + 46 * (n - 1);
    }
  }

  /** The totals the harness prints for 3, 4, 5 and 6 batches. */
  lemma HarnessTotals()
    ensures Sum(Reports(3)) == 114 && Sum(Reports(4)) == 198
    ensures Sum(Reports(5)) == 305 && Sum(Reports(6)) == 435
  {
    SumReports(3);
    SumReports(4);
    SumReports(5);
    SumReports(6);
  }

  /** sendReports: sends one value per batch, in order, then closes the
      channel.  The model runs the whole producer before the consumer, so the
      channel must have room for every batch. */
  method SendReports(numBatches: int, ch: Channel<int>)
    requires ch.Valid() && !ch.closed && |ch.buf| + Iterations(numBatches) <= ch.cap
    modifies ch
    ensures ch.Valid() && ch.closed
    ensures ch.buf == old(ch.buf) + Reports(Iterations(numBatches))
  {
    for i := 0 to Iterations(numBatches)
      invariant ch.Valid() && !ch.closed
      invariant ch.buf == old(ch.buf) + Reports(i)
    {
      var numReports := i * 23 + 32 % 17;
      ch.Send(numReports);
      assert Reports(i + 1) == Reports(i) + [numReports];
    }
    ch.Close();
  }

  /** countReports: receives until the channel says it is closed and
      drained, and returns the total of what it received.  A receive on an
      open, empty channel would wait for the producer, so the model asks for
      the producer to have finished (closed the channel). */
  method CountReports(numSentCh: Channel<int>) returns (total: int)
    requires numSentCh.Valid() && numSentCh.closed
    modifies numSentCh
    ensures numSentCh.Valid() && numSentCh.closed && numSentCh.buf == []
    ensures total == Sum(old(numSentCh.buf))
  {
    total := 0;
    ghost var taken := 0;
    while true
      invariant numSentCh.Valid() && numSentCh.closed
      invariant 0 <= taken <= |old(numSentCh.buf)|
      invariant numSentCh.buf == old(numSentCh.buf)[taken..]
      invariant total == Sum(old(numSentCh.buf)[..taken])
      decreases |numSentCh.buf|
    {
      var numSent, ok := numSentCh.Receive();
      if !ok {
        break;
      }
      assert old(numSentCh.buf)[..taken + 1][..taken] == old(numSentCh.buf)[..taken];
      total := total + numSent;
      taken := taken + 1;
    }
    assert old(numSentCh.buf)[..taken] == old(numSentCh.buf);
  }

  /** The harness's `test`: the total counted is the total sent,
      `15n + 23n(n-1)/2` for `n` batches; 0 when nothing is sent. */
  method Test(numBatches: int) returns (numReports: int)
    ensures numReports == Sum(Reports(Iterations(numBatches)))
    ensures 2 * numReports == 23 * Iterations(numBatches) * (Iterations(numBatches) - 1) + 30 * Iterations(numBatches)
  {
    var numSentCh := new Channel(Iterations(numBatches), 0);
    SendReports(numBatches, numSentCh);
    assert numSentCh.buf == Reports(Iterations(numBatches));
    numReports := CountReports(numSentCh);
    SumReports(Iterations(numBatches));
  }
}
