/**
 * Confirmed delivery of one message.  The server echoes what a client sent as a
 * data frame (header + payload) and confirms it in two rounds, receipt then
 * integrity, each with bounded retransmission.  The client checks every data
 * frame it reads: receipt needs a non-empty C string, integrity needs the
 * header's checksum to match the checksum of that string.
 */
module Delivery {
  import opened Wire
  import opened InternetChecksum
  import opened Options
  import opened Confirm

  /** Size of the server's payload buffer. */
  const DataSize: nat := 1024

  /** A data frame as read: at least a whole header. */
  type Frame = f: seq<byte> | HeaderSize <= |f| witness seq(HeaderSize, _ => 0)

  /** How the server's two rounds ended. */
  datatype ServeEnd = Delivered | ReceiptExhausted | IntegrityExhausted

  /** How the client's two checks ended. */
  datatype ClientEnd = Received(payload: seq<byte>) | ServerClosed

  // ---------------------------------------------------------------------------
  // C strings
  // ---------------------------------------------------------------------------

  /** strlen: the number of bytes before the first NUL, or all of them when there is none. */
  function CStrLen(s: seq<byte>): (n: nat)
    ensures n <= |s|
    ensures forall i :: 0 <= i < n ==> s[i] != 0
    ensures n < |s| ==> s[n] == 0
  {
    if s == [] || s[0] == 0 then 0 else 1 + CStrLen(s[1..])
  }

  /** The C string a byte sequence holds. */
  function CString(s: seq<byte>): seq<byte>
  {
    s[..CStrLen(s)]
  }

  // ---------------------------------------------------------------------------
  // The echo frame
  // ---------------------------------------------------------------------------

  /** The header the server puts in front of an echoed payload. */
  function EchoHeader(payload: seq<byte>, bufsize: u16): Header
    requires |payload| < 0x1_0000
  {
    Header(1, 0, 0, 0, bufsize, Checksum(payload, |payload|), |payload|)
  }

  /**
   * The meaningful bytes of an echo frame: the header, then the payload at
   * offset 13.  A client decodes from it exactly that header and that payload.
   */
  function EchoFrame(payload: seq<byte>, bufsize: u16): (f: Frame)
    requires |payload| < 0x1_0000
    ensures |f| == HeaderSize + |payload|
    ensures Decode(f) == EchoHeader(payload, bufsize)
    ensures PayloadOf(f) == payload
  {
    var h := EchoHeader(payload, bufsize);
    DecodeEncode(h);
    var f := Encode(h) + payload;
    assert f[..HeaderSize] == Encode(h);
    f
  }

  /**
   * memcpy of the payload at offset 13 into the buffer the echo header was
   * serialised into; bytes outside that range are left as they were.
   */
  method CopyPayload(buffer: array<byte>, payload: seq<byte>)
    requires HeaderSize + |payload| <= buffer.Length
    modifies buffer
    ensures buffer[..HeaderSize] == old(buffer[..HeaderSize])
    ensures buffer[HeaderSize..HeaderSize + |payload|] == payload
    ensures buffer[HeaderSize + |payload|..] == old(buffer[HeaderSize + |payload|..])
  {
    var i := 0;
    while i < |payload|
      invariant 0 <= i <= |payload|
      invariant forall k :: 0 <= k < buffer.Length ==>
                  buffer[k] == if HeaderSize <= k < HeaderSize + i then payload[k - HeaderSize] else old(buffer[k])
    {
      buffer[HeaderSize + i] := payload[i];
      i := i + 1;
    }
    assert buffer[HeaderSize..HeaderSize + |payload|] == payload;
  }

  /**
   * The server builds the echo frame in the buffer it read the message into:
   * the header over bytes 0..12, the payload from byte 13 on, the rest of the
   * buffer untouched.
   */
  method WriteEchoFrame(buffer: array<byte>, payload: seq<byte>, bufsize: u16) returns (header: Header)
    requires |payload| < 0x1_0000 && HeaderSize + |payload| <= buffer.Length
    modifies buffer
    ensures header == EchoHeader(payload, bufsize)
    ensures buffer[..HeaderSize + |payload|] == EchoFrame(payload, bufsize)
    ensures buffer[HeaderSize + |payload|..] == old(buffer[HeaderSize + |payload|..])
  {
    var cs := IChecksum(payload, |payload|);
    header := Header(1, 0, 0, 0, bufsize, cs, |payload|);
    SerializeHeader(buffer, header);
    CopyPayload(buffer, payload);
    assert buffer[..HeaderSize + |payload|] == buffer[..HeaderSize] + buffer[HeaderSize..HeaderSize + |payload|];
  }

  // ---------------------------------------------------------------------------
  // The client's checks
  // ---------------------------------------------------------------------------

  /** The payload bytes the client copies out: len bytes from offset 13, as far as the frame goes. */
  function PayloadOf(f: Frame): seq<byte>
  {
    var end := HeaderSize + Decode(f).len;
    f[HeaderSize..if end <= |f| then end else |f|]
  }

  /** Receipt check: strlen(payload) > 0, that is the payload is there and does not start with NUL. */
  function ReceiptAccepted(f: Frame): (ok: bool)
    ensures ok <==> Decode(f).len > 0 && |f| > HeaderSize && f[HeaderSize] != 0
  {
    CStrLen(PayloadOf(f)) > 0
  }

  /** Integrity check: the header's checksum against the checksum of strlen(payload) bytes. */
  predicate IntegrityAccepted(f: Frame)
  {
    var p := PayloadOf(f);
    Decode(f).checksum == Checksum(p, CStrLen(p))
  }

  /**
   * The integrity check covers the payload only up to its first NUL, not the
   * len bytes the header announces: two frames that agree up to and including
   * that NUL get the same verdicts whatever follows it.
   */
  lemma IntegrityStopsAtNul(f: Frame, g: Frame)
    requires CStrLen(PayloadOf(f)) < |PayloadOf(f)|
    requires |f| == |g|
    requires f[..HeaderSize + CStrLen(PayloadOf(f)) + 1] == g[..HeaderSize + CStrLen(PayloadOf(f)) + 1]
    ensures ReceiptAccepted(f) == ReceiptAccepted(g)
    ensures IntegrityAccepted(f) == IntegrityAccepted(g)
  {
    var n := CStrLen(PayloadOf(f));
    var p, q := PayloadOf(f), PayloadOf(g);
    assert f[..HeaderSize] == g[..HeaderSize];
    EncodeDecode(f);
    EncodeDecode(g);
    assert Decode(f) == Decode(g) by {
      DecodeEncode(Decode(f));
      DecodeEncode(Decode(g));
    }
    assert |p| == |q|;
    assert forall i :: 0 <= i <= n ==> p[i] == f[HeaderSize + i] == g[HeaderSize + i] == q[i];
    assert p[..n + 1] == q[..n + 1];
    CStrLenPrefix(p, q, n);
    assert p[..n] == q[..n];
  }

  /** Sequences that agree up to and including a NUL at n have the same C string length. */
  lemma {:induction false} CStrLenPrefix(p: seq<byte>, q: seq<byte>, n: nat)
    requires n < |p| && n < |q| && p[..n + 1] == q[..n + 1]
    requires p[n] == 0 && forall i :: 0 <= i < n ==> p[i] != 0
    ensures CStrLen(p) == n && CStrLen(q) == n
  {
    if n > 0 {
      assert p[1..][..n] == p[..n + 1][1..] == q[..n + 1][1..] == q[1..][..n];
      CStrLenPrefix(p[1..], q[1..], n - 1);
    } else {
      assert q[0] == p[0];
    }
  }

  /**
   * A server's echo of a C string (no NUL byte) passes the client's checks on
   * its first transmission: receipt exactly when the string is non-empty, and
   * integrity always, delivering the same bytes.
   */
  lemma EchoPassesChecks(payload: seq<byte>, bufsize: u16)
    requires |payload| < 0x1_0000
    requires forall i :: 0 <= i < |payload| ==> payload[i] != 0
    ensures ReceiptAccepted(EchoFrame(payload, bufsize)) <==> payload != []
    ensures IntegrityAccepted(EchoFrame(payload, bufsize))
    ensures CString(PayloadOf(EchoFrame(payload, bufsize))) == payload
  {
    var f := EchoFrame(payload, bufsize);
    assert CStrLen(payload) == |payload|;
    assert payload[..|payload|] == payload;
    if payload != [] {
      assert f[HeaderSize] == payload[0];
    }
  }

  /**
   * An echo of a C string with one payload byte corrupted in transit to another
   * non-NUL value fails the client's integrity check.
   */
  lemma CorruptedEchoRefused(payload: seq<byte>, bufsize: u16, i: nat, b: byte)
    requires |payload| < 0x1_0000
    requires forall j :: 0 <= j < |payload| ==> payload[j] != 0
    requires i < |payload| && b != 0 && b != payload[i]
    ensures !IntegrityAccepted(EchoFrame(payload, bufsize)[HeaderSize + i := b])
  {
    var f := EchoFrame(payload, bufsize);
    var g := f[HeaderSize + i := b];
    assert g[..HeaderSize] == f[..HeaderSize];
    assert Decode(g) == Decode(f);
    var p := payload[i := b];
    assert PayloadOf(g) == p;
    assert CStrLen(p) == |p|;
    assert p[..|p|] == p;
    assert payload[..|payload|] == payload;
    ChecksumDetectsByteChange(payload, i, b);
  }

  // ---------------------------------------------------------------------------
  // The two sides of one delivery cycle
  // ---------------------------------------------------------------------------

  /**
   * The server's cycle for one message read from a client: copy out the C
   * string, build and transmit the echo frame, run the receipt round and, only
   * once it is confirmed, the integrity round on the status slots that follow.
   * The integrity round transmits nothing up front: it reads a status and only
   * retransmits on a refusal.  `sent` is the trace of transmitted frames; the
   * first `receiptSent` of them belong to the receipt round.
   */
  method ServeMessage(message: seq<byte>, bufsize: u16, statuses: seq<Option<int>>)
    returns (frame: Frame, sent: seq<Frame>, receiptSent: nat, end: ServeEnd)
    requires |message| <= bufsize
    requires CStrLen(message) < DataSize
    requires HeaderSize + CStrLen(message) <= bufsize
    ensures frame == EchoFrame(CString(message), bufsize)
    ensures forall i :: 0 <= i < |sent| ==> sent[i] == frame
    ensures 1 <= receiptSent <= 1 + MaxRetransm && receiptSent <= |sent|
    ensures forall k :: 1 <= k < receiptSent ==> StatusAfter(statuses, k) != 1
    ensures end == ReceiptExhausted <==> StatusAfter(statuses, receiptSent) != 1
    ensures end == ReceiptExhausted ==> |sent| == receiptSent == 1 + MaxRetransm
    ensures end != ReceiptExhausted ==> |sent| <= receiptSent + MaxRetransm
    ensures end != ReceiptExhausted ==>
              forall k :: 1 <= k <= |sent| - receiptSent ==> StatusAfter(Drop(statuses, receiptSent), k) != 1
    ensures end == Delivered <==>
              end != ReceiptExhausted && StatusAfter(Drop(statuses, receiptSent), |sent| - receiptSent + 1) == 1
    ensures end == IntegrityExhausted ==> |sent| == receiptSent + MaxRetransm
  {
    var payload := CString(message);
    var buffer := new byte[bufsize](i => if 0 <= i < |message| then message[i] else 0);
    var header := WriteEchoFrame(buffer, payload, bufsize);
    frame := buffer[..HeaderSize + |payload|];

    var o;
    sent, o := SendWithRetry(frame, statuses);
    receiptSent := |sent|;
    if o == Failed {
      end := ReceiptExhausted;
      return;
    }
    var more;
    more, o := AwaitWithRetry(frame, Drop(statuses, receiptSent));
    sent := sent + more;
    end := if o == Confirmed then Delivered else IntegrityExhausted;
  }

  /** Replies of 0 and 1 followed by replies of 0 and 1. */
  lemma RepliesConcat(a: seq<int>, b: seq<int>)
    requires forall i :: 0 <= i < |a| ==> a[i] == 0 || a[i] == 1
    requires forall i :: 0 <= i < |b| ==> b[i] == 0 || b[i] == 1
    ensures forall i :: 0 <= i < |a + b| ==> (a + b)[i] == 0 || (a + b)[i] == 1
  {
  }

  /**
   * What the client's integrity check on `current` and its loop over `rest`
   * reply and receive: 0 to each frame that fails integrity and 1 to the first
   * that passes, whose C string is received; end of stream when none passes.
   */
  predicate IntegrityOutcome(current: Frame, rest: seq<Frame>, replies: seq<int>, end: ClientEnd)
  {
    var q := FirstPass(IntegrityAccepted(current), rest, IntegrityAccepted);
    if q <= |rest| then
      replies == Zeros(q) + [1] && end == Received(CString(PayloadOf(AcceptedFrame(current, rest, q))))
    else
      replies == Zeros(|rest| + 1) && end == ServerClosed
  }

  /**
   * What the client's two loops reply and receive over [first] + more: 0 to each
   * frame that fails receipt and 1 to the first that passes; then the integrity
   * outcome starting on that same frame and reading on from there.  End of
   * stream in the receipt loop closes with every reply 0.
   */
  predicate ReceiveOutcome(first: Frame, more: seq<Frame>, replies: seq<int>, end: ClientEnd)
  {
    var r := FirstPass(ReceiptAccepted(first), more, ReceiptAccepted);
    if r > |more| then
      replies == Zeros(|more| + 1) && end == ServerClosed
    else
      && |replies| > r
      && replies[..r + 1] == Zeros(r) + [1]
      && IntegrityOutcome(AcceptedFrame(first, more, r), more[r..], replies[r + 1..], end)
  }

  /** The integrity check on `current` and its loop over the frames `rest` that later reads return. */
  method IntegrityRound(current: Frame, rest: seq<Frame>) returns (replies: seq<int>, end: ClientEnd)
    ensures IntegrityOutcome(current, rest, replies, end)
  {
    var v;
    replies, v := ReceiveUntilAccepted(IntegrityAccepted(current), rest, IntegrityAccepted);
    if v.Closed? {
      end := ServerClosed;
    } else {
      end := Received(CString(PayloadOf(AcceptedFrame(current, rest, v.at))));
    }
  }

  /**
   * The client's checks on the data frames of one cycle.  `first` is the frame
   * read after sending the message, `more` the frames later reads return before
   * end of stream.
   */
  method ClientReceive(first: Frame, more: seq<Frame>)
    returns (replies: seq<int>, end: ClientEnd)
    ensures ReceiveOutcome(first, more, replies, end)
  {
    var receipt, v := ReceiveUntilAccepted(ReceiptAccepted(first), more, ReceiptAccepted);
    if v.Closed? {
      replies, end := receipt, ServerClosed;
      return;
    }
    var rest := more[v.at..];
    var integrity;
    integrity, end := IntegrityRound(AcceptedFrame(first, more, v.at), rest);
    replies := receipt + integrity;
    assert replies[..v.at + 1] == receipt && replies[v.at + 1..] == integrity;
  }

  /**
   * A first frame passing both checks is answered [1, 1] and its C string is
   * received, whatever frames would follow.
   */
  lemma FirstFrameDelivered(first: Frame, more: seq<Frame>, replies: seq<int>, end: ClientEnd)
    requires ReceiveOutcome(first, more, replies, end)
    requires ReceiptAccepted(first) && IntegrityAccepted(first)
    ensures replies == [1, 1] && end == Received(CString(PayloadOf(first)))
  {
    assert replies == replies[..1] + replies[1..];
  }

  /**
   * The shape of what the client replies: only 0s and 1s, at least one and at
   * most one per frame plus one, ending in 1 whenever a payload is received.
   */
  lemma ReceiveOutcomeShape(first: Frame, more: seq<Frame>, replies: seq<int>, end: ClientEnd)
    requires ReceiveOutcome(first, more, replies, end)
    ensures forall i :: 0 <= i < |replies| ==> replies[i] == 0 || replies[i] == 1
    ensures 1 <= |replies| <= |more| + 2
    ensures end.Received? ==> replies[|replies| - 1] == 1
  {
    var r := FirstPass(ReceiptAccepted(first), more, ReceiptAccepted);
    if r <= |more| {
      var rest := more[r..];
      var q := FirstPass(IntegrityAccepted(AcceptedFrame(first, more, r)), rest, IntegrityAccepted);
      var tail := replies[r + 1..];
      assert replies == Zeros(r) + [1] + tail by {
        assert replies == replies[..r + 1] + tail;
      }
      RepliesConcat(Zeros(r) + [1], tail);
    }
  }

  // ---------------------------------------------------------------------------
  // Both sides of one cycle over a clean transport
  // ---------------------------------------------------------------------------

  /**
   * A message with a non-empty C string: the client reads the one echo frame the
   * server sends, both of its replies are 1, the server sends nothing more, and
   * the client receives exactly the C string it typed.
   */
  method CleanDelivery(message: seq<byte>, bufsize: u16)
    returns (sent: seq<Frame>, replies: seq<int>, serverEnd: ServeEnd, clientEnd: ClientEnd)
    requires |message| <= bufsize
    requires 0 < CStrLen(message) < DataSize
    requires HeaderSize + CStrLen(message) <= bufsize
    ensures |sent| == 1 && replies == [1, 1]
    ensures serverEnd == Delivered && clientEnd == Received(CString(message))
  {
    var payload := CString(message);
    EchoPassesChecks(payload, bufsize);
    var echo := EchoFrame(payload, bufsize);
    replies, clientEnd := ClientReceive(echo, []);

    var frame, receiptSent;
    frame, sent, receiptSent, serverEnd := ServeMessage(message, bufsize, [Some(replies[0]), Some(replies[1])]);
    assert StatusAfter([Some(1), Some(1)], 1) == 1;
    assert Drop([Some(1), Some(1)], 1) == [Some(1)];
    assert StatusAfter([Some(1)], 1) == 1;
  }

  /**
   * A message whose first byte is NUL: the echo carries an empty payload, the
   * client refuses its receipt every time, the server gives up after its last
   * retransmission, and the client then reads end of stream.
   */
  method EmptyDelivery(message: seq<byte>, bufsize: u16)
    returns (sent: seq<Frame>, replies: seq<int>, serverEnd: ServeEnd, clientEnd: ClientEnd)
    requires |message| <= bufsize
    requires CStrLen(message) == 0
    requires HeaderSize <= bufsize
    ensures |sent| == 1 + MaxRetransm && replies == [0, 0, 0, 0]
    ensures serverEnd == ReceiptExhausted && clientEnd == ServerClosed
  {
    EchoPassesChecks([], bufsize);
    var echo := EchoFrame([], bufsize);
    replies, clientEnd := ClientReceive(echo, [echo, echo, echo]);

    var statuses := [Some(replies[0]), Some(replies[1]), Some(replies[2]), Some(replies[3])];
    var frame, receiptSent;
    frame, sent, receiptSent, serverEnd := ServeMessage(message, bufsize, statuses);
    assert statuses == [Some(0), Some(0), Some(0), Some(0)];
    assert StatusAfter(statuses, 1) == 0;
    assert StatusAfter(statuses, 2) == 0;
    assert StatusAfter(statuses, 3) == 0;
    assert StatusAfter(statuses, 4) == 0;
  }
}
