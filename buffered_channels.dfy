/** The buffered-channel exercise of Concurrency/3-BufferedChannels.go. */
module BufferedChannels {
  import opened Channels
  import opened Loops

  /** addEmailsToQueue: a channel whose buffer holds every email, so each
      send finds room though nobody receives; the emails stay in order. */
  method AddEmailsToQueue(emails: seq<string>) returns (emailsToSend: Channel<string>)
    ensures fresh(emailsToSend) && emailsToSend.Valid()
    ensures emailsToSend.cap == |emails| && emailsToSend.zero == ""
    ensures emailsToSend.buf == emails && !emailsToSend.closed
  {
    emailsToSend := new Channel(|emails|, "");
    for i := 0 to |emails|
      invariant emailsToSend.Valid() && !emailsToSend.closed
      invariant emailsToSend.buf == emails[..i]
    {
      emailsToSend.Send(emails[i]);
      assert emails[..i + 1] == emails[..i] + [emails[i]];
    }
    assert emails[..|emails|] == emails;
  }

  /** What `batchSize` single-value receives (`email := <-ch`) take from a
      buffer: the values in order, then the zero value for each receive
      after a closed channel is drained. */
  function Received<T>(buf: seq<T>, batchSize: int, zero: T): (r: seq<T>)
    ensures |r| == Iterations(batchSize)
    ensures forall i :: 0 <= i < |r| ==> r[i] == if i < |buf| then buf[i] else zero
  {
    if batchSize <= 0 then []
    else if batchSize <= |buf| then buf[..batchSize]
    else buf + seq(batchSize - |buf|, _ => zero)
  }

  /** How many buffered values `batchSize` receives take off a buffer of
      length `len`. */
  function Taken(len: nat, batchSize: int): (n: nat)
    ensures n <= len
  {
    if batchSize <= 0 then 0 else if batchSize <= len then batchSize else len
  }

  /** sendEmails: receives `batchSize` emails (the ones the source prints),
      oldest first.  A receive on an empty open channel would block for
      ever, so the buffer must hold the batch unless the channel is closed. */
  method SendEmails(batchSize: int, ch: Channel<string>) returns (sent: seq<string>)
    requires ch.Valid() && (batchSize <= |ch.buf| || ch.closed)
    modifies ch
    ensures ch.Valid() && ch.closed == old(ch.closed)
    ensures sent == Received(old(ch.buf), batchSize, ch.zero)
    ensures ch.buf == old(ch.buf)[Taken(|old(ch.buf)|, batchSize)..]
  {
    sent := [];
    var i := 0;
    while i < batchSize
      invariant 0 <= i <= Iterations(batchSize)
      invariant ch.Valid() && ch.closed == old(ch.closed)
      invariant sent == Received(old(ch.buf), i, ch.zero)
      invariant ch.buf == old(ch.buf)[Taken(|old(ch.buf)|, i)..]
      invariant batchSize <= |old(ch.buf)| || ch.closed
    {
      var email, _ := ch.Receive();
      sent := sent + [email];
      i := i + 1;
    }
  }

  /** The harness's `test`: queue the emails, then send as many as were
      queued; they come out as they went in and the queue is empty. */
  method Test(emails: seq<string>) returns (sent: seq<string>, left: nat)
    ensures sent == emails
    ensures left == 0
  {
    var ch := AddEmailsToQueue(emails);
    sent := SendEmails(|emails|, ch);
    left := |ch.buf|;
  }
}
