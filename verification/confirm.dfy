/**
 * The two halves of every confirmed exchange in the protocol.
 *
 * Sender side: read a status; while the status is not 1, retransmit the
 * identical frame, at most MaxRetransm times, and give up once
 * `trials > MAX_RETRANSM`.  Every sender phase but the server's integrity round
 * transmits the frame once before this.
 *
 * Receiver side: check the frame just read and reply 1 (accept) or 0; after a
 * 0, keep reading, re-checking and replying until a frame is accepted or a read
 * returns no bytes.  Used for the server's SYN and ACK and for the client's
 * SYN-ACK, receipt and integrity checks.
 *
 * Reads and writes are replaced by a finite input script and an output trace.
 */
module Confirm {
  import opened Options

  const MaxRetransm: nat := 3

  /** How a sender's confirmation ended. */
  datatype Outcome = Confirmed | Failed

  /** How a receiver's confirmation loop ended: the frame it accepted, or end of stream. */
  datatype Verdict = Accepted(at: nat) | Closed

  /**
   * One status read: sscanf("%d") overwrites the status variable when it can
   * parse a number and leaves it as it was otherwise.
   */
  function Absorb(prev: int, read: Option<int>): int
  {
    match read
    case Some(v) => v
    case None => prev
  }

  /** The i-th status slot the peer sends; past the end of the script nothing parses (closed peer). */
  function StatusSlot(statuses: seq<Option<int>>, i: nat): Option<int>
  {
    if i < |statuses| then statuses[i] else None
  }

  /** The value of the status variable, initialised to 1, after k reads. */
  function StatusAfter(statuses: seq<Option<int>>, k: nat): int
  {
    if k == 0 then 1 else Absorb(StatusAfter(statuses, k - 1), StatusSlot(statuses, k - 1))
  }

  /** The part of a script left after n reads. */
  function Drop<T>(s: seq<T>, n: nat): (r: seq<T>)
    ensures |r| == if n <= |s| then |s| - n else 0
    ensures forall i :: 0 <= i < |r| ==> r[i] == s[n + i]
  {
    if n <= |s| then s[n..] else []
  }

  /** `n` replies of 0. */
  function Zeros(n: nat): (r: seq<int>)
    ensures |r| == n && forall i :: 0 <= i < n ==> r[i] == 0
  {
    seq(n, _ => 0)
  }

  /**
   * Where a receiver's confirmation loop stops: the index, in [first] + more, of
   * the first frame that passes `ok` (`firstOk` is the verdict on `first`), or
   * |more| + 1 when none does.
   */
  function FirstPass<F>(firstOk: bool, more: seq<F>, ok: F -> bool): (r: nat)
    ensures r <= |more| + 1
    ensures r == 0 <==> firstOk
    ensures 0 < r <= |more| ==> ok(more[r - 1])
    ensures forall j :: 0 <= j < |more| && j < r - 1 ==> !ok(more[j])
    decreases |more|
  {
    if firstOk then 0
    else if more == [] then 1
    else 1 + FirstPass(ok(more[0]), more[1..], ok)
  }

  /** The frame at index `at` of [first] + more. */
  function AcceptedFrame<F>(first: F, more: seq<F>, at: nat): F
    requires at <= |more|
  {
    if at == 0 then first else more[at - 1]
  }

  /**
   * The retry half of a confirmed send, after the frame has gone out once: read
   * a status; while it is not 1, retransmit the identical frame and read again,
   * at most MaxRetransm times.  `resent` is the trace of retransmissions.  It
   * stops at the first status 1 and fails only once the last retransmission has
   * also been refused.  The server's integrity round is exactly this.
   */
  method AwaitWithRetry<F>(frame: F, statuses: seq<Option<int>>) returns (resent: seq<F>, outcome: Outcome)
    ensures |resent| <= MaxRetransm
    ensures forall i :: 0 <= i < |resent| ==> resent[i] == frame
    ensures forall k :: 1 <= k <= |resent| ==> StatusAfter(statuses, k) != 1
    ensures outcome == Confirmed <==> StatusAfter(statuses, |resent| + 1) == 1
    ensures outcome == Failed ==> |resent| == MaxRetransm
  {
    resent := [];
    var status := 1;
    status := Absorb(status, StatusSlot(statuses, 0));
    if status == 1 {
      outcome := Confirmed;
      return;
    }
    var trials := 1;
    while trials <= MaxRetransm
      invariant 1 <= trials <= MaxRetransm + 1
      invariant |resent| == trials - 1
      invariant forall i :: 0 <= i < |resent| ==> resent[i] == frame
      invariant status == StatusAfter(statuses, trials)
      invariant forall k :: 1 <= k <= trials ==> StatusAfter(statuses, k) != 1
    {
      resent := resent + [frame];
      status := Absorb(status, StatusSlot(statuses, trials));
      if status == 1 {
        break;
      }
      trials := trials + 1;
    }
    outcome := if trials > MaxRetransm then Failed else Confirmed;
  }

  /**
   * Bounded confirm-with-retry: transmit the frame, then retry as above.  `sent`
   * is the trace of transmissions: the same frame every time, at most
   * 1 + MaxRetransm of them, stopping at the first status 1.  Used for the
   * server's SYN-ACK and receipt rounds and for the client's SYN and ACK.
   */
  method SendWithRetry<F>(frame: F, statuses: seq<Option<int>>) returns (sent: seq<F>, outcome: Outcome)
    ensures 1 <= |sent| <= 1 + MaxRetransm
    ensures forall i :: 0 <= i < |sent| ==> sent[i] == frame
    ensures forall k :: 1 <= k < |sent| ==> StatusAfter(statuses, k) != 1
    ensures outcome == Confirmed <==> StatusAfter(statuses, |sent|) == 1
    ensures outcome == Failed ==> |sent| == 1 + MaxRetransm
  {
    var resent;
    resent, outcome := AwaitWithRetry(frame, statuses);
    sent := [frame] + resent;
  }

  /**
   * The receiver's confirmation loop.  `firstOk` is the verdict on the frame
   * already read, `more` the frames later reads return before end of stream,
   * `ok` the check applied to each of them.  It replies 0 to every refused frame
   * and 1 to the accepted one, accepts the first frame that passes, and closes
   * only when no frame passed.
   */
  method ReceiveUntilAccepted<F>(firstOk: bool, more: seq<F>, ok: F -> bool)
    returns (replies: seq<int>, verdict: Verdict)
    ensures firstOk <==> verdict == Accepted(0)
    ensures verdict.Accepted? ==> verdict.at <= |more| && replies == Zeros(verdict.at) + [1]
    ensures verdict.Accepted? && verdict.at > 0 ==> ok(more[verdict.at - 1])
    ensures verdict.Accepted? ==> forall j :: 0 <= j < verdict.at - 1 ==> !ok(more[j])
    ensures verdict.Closed? ==> replies == Zeros(|more| + 1)
    ensures verdict.Closed? ==> forall j :: 0 <= j < |more| ==> !ok(more[j])
    ensures FirstPass(firstOk, more, ok) <= |more| ==>
              verdict == Accepted(FirstPass(firstOk, more, ok)) && replies == Zeros(FirstPass(firstOk, more, ok)) + [1]
    ensures FirstPass(firstOk, more, ok) > |more| ==> verdict == Closed && replies == Zeros(|more| + 1)
  {
    if firstOk {
      replies := [1];
      verdict := Accepted(0);
      return;
    }
    replies := [0];
    var i := 0;
    while true
      invariant 0 <= i <= |more|
      invariant replies == Zeros(i + 1)
      invariant forall j :: 0 <= j < i ==> !ok(more[j])
      decreases |more| - i
    {
      if i == |more| {
        verdict := Closed;
        return;
      }
      var frame := more[i];
      i := i + 1;
      if ok(frame) {
        replies := replies + [1];
        verdict := Accepted(i);
        return;
      }
      replies := replies + [0];
    }
  }

  /** A peer that sends nothing parsable before the first read confirms the phase at once. */
  lemma UnparsedFirstStatusConfirms(statuses: seq<Option<int>>)
    requires StatusSlot(statuses, 0) == None
    ensures StatusAfter(statuses, 1) == 1
  {
  }

  /**
   * After a refusal, unparsable slots keep the refusal: a peer that sends one
   * 0 and then closes makes the sender use all of its retries.
   */
  lemma {:induction false} RefusalPersists(statuses: seq<Option<int>>, k: nat)
    requires StatusAfter(statuses, 1) != 1
    requires forall i :: 1 <= i < |statuses| ==> statuses[i] == None
    requires k >= 1
    ensures StatusAfter(statuses, k) == StatusAfter(statuses, 1)
  {
    if k > 1 {
      RefusalPersists(statuses, k - 1);
    }
  }
}
