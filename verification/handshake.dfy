/**
 * The three-way handshake: the frames each side builds and the checks each side
 * applies, and the two sides' handshake sequences built from the confirmation
 * primitives.  Every frame here is a header; 16-bit arithmetic wraps modulo 2^16.
 */
module Handshake {
  import opened Wire
  import opened Options
  import opened Confirm

  const ClientIsn: u16 := 1001
  const ServerIsn: u16 := 2001
  const ClientBufSize: u16 := 4096
  const ProtocolVersion: u8 := 1

  /** How one side's handshake ended. */
  datatype HandshakeEnd = Established | PeerClosed | RetriesExhausted

  // ---------------------------------------------------------------------------
  // Frames and checks
  // ---------------------------------------------------------------------------

  /**
   * The client's SYN.  Its checksum and len fields are never assigned in the
   * client, so they are whatever the uninitialised header held: parameters here.
   */
  function ClientSyn(checksum: u16, len: u16): (h: Header)
    ensures h.version == ProtocolVersion && h.bufsize == ClientBufSize
    ensures SynAccepted(h) && h.seqNo == ClientIsn && h.ack == 0
  {
    Header(ProtocolVersion, 0, 1, ClientIsn, ClientBufSize, checksum, len)
  }

  /** The server's check of a SYN: the syn field is exactly 1. */
  predicate SynAccepted(h: Header)
  {
    h.syn == 1
  }

  /**
   * The server's SYN-ACK, built by updating the accepted SYN in place: ack is
   * the client's seq + 1, syn is 1, seq is the server's ISN, and the other four
   * fields are carried over.  The client accepts it exactly when the SYN
   * carried the client's ISN.
   */
  function SynAck(syn: Header): (r: Header)
    ensures r.(ack := syn.ack, syn := syn.syn, seqNo := syn.seqNo) == syn
    ensures r.syn == 1 && r.seqNo == ServerIsn && r.ack == (syn.seqNo + 1) % 0x1_0000
    ensures SynAckAccepted(r) <==> syn.seqNo == ClientIsn
  {
    syn.(ack := (syn.seqNo + 1) % 0x1_0000, syn := 1, seqNo := ServerIsn)
  }

  /** The client's check of a SYN-ACK: ack is the client's ISN + 1 and syn is 1. */
  predicate SynAckAccepted(h: Header)
  {
    h.ack == ClientIsn + 1 && h.syn == 1
  }

  /**
   * The client reads only ack, syn and seq out of a SYN-ACK frame; its other
   * fields keep the values of its own SYN.
   */
  function TakeSynAck(own: Header, frame: Header): (r: Header)
    ensures r.ack == frame.ack && r.syn == frame.syn && r.seqNo == frame.seqNo
    ensures r.(ack := own.ack, syn := own.syn, seqNo := own.seqNo) == own
  {
    own.(ack := frame.ack, syn := frame.syn, seqNo := frame.seqNo)
  }

  /**
   * The client's ACK, from its state after the SYN-ACK: ack is the server's
   * seq + 1, syn is 0, and seq takes the ack the server sent.
   */
  function ClientAck(state: Header): (r: Header)
    ensures r.(ack := state.ack, syn := state.syn, seqNo := state.seqNo) == state
    ensures r.syn == 0 && r.seqNo == state.ack && r.ack == (state.seqNo + 1) % 0x1_0000
    ensures state.seqNo == ServerIsn ==> AckAccepted(r) && !FirstAckAccepted(r)
  {
    state.(ack := (state.seqNo + 1) % 0x1_0000, syn := 0, seqNo := state.ack)
  }

  /**
   * The server's first check of an ACK decrements ack (modulo 2^16) before
   * comparing it with the server's ISN + 1, so it accepts ack == ISN + 2 only.
   */
  function FirstAckAccepted(h: Header): (ok: bool)
    ensures ok <==> h.ack == ServerIsn + 2
  {
    (h.ack - 1) % 0x1_0000 == ServerIsn + 1
  }

  /** The server's check of a re-sent ACK: ack is the server's ISN + 1. */
  predicate AckAccepted(h: Header)
  {
    h.ack == ServerIsn + 1
  }

  /**
   * Both sides following the protocol, with every frame passing through the
   * codec: the SYN and the SYN-ACK are accepted at once, and the genuine ACK is
   * refused by the server's first check and accepted by its retry check.
   */
  lemma HonestHandshake(checksum: u16, len: u16)
    ensures var syn := Decode(Encode(ClientSyn(checksum, len)));
            var synAck := Decode(Encode(SynAck(syn)));
            var ack := Decode(Encode(ClientAck(TakeSynAck(ClientSyn(checksum, len), synAck))));
            && SynAccepted(syn)
            && SynAckAccepted(synAck)
            && !FirstAckAccepted(ack)
            && AckAccepted(ack)
            && ack.version == ProtocolVersion && ack.bufsize == ClientBufSize
  {
    var own := ClientSyn(checksum, len);
    DecodeEncode(own);
    DecodeEncode(SynAck(own));
    DecodeEncode(ClientAck(TakeSynAck(own, SynAck(own))));
  }

  // ---------------------------------------------------------------------------
  // The two handshake sequences
  // ---------------------------------------------------------------------------

  /**
   * The server's handshake on a freshly accepted connection.  `syn` and
   * `synRetries` are the SYN frames it reads, `synAckStatuses` the status slots
   * the client answers the SYN-ACK with, `ack` and `ackRetries` the ACK frames.
   * `state` is the server's header record at the end; once established its ack
   * field holds the server's ISN + 1 on either path.
   */
  method ServerHandshake(
    syn: Header, synRetries: seq<Header>,
    synAckStatuses: seq<Option<int>>,
    ack: Header, ackRetries: seq<Header>)
    returns (synReplies: seq<int>, synAckSent: seq<Header>, ackReplies: seq<int>, state: Header, end: HandshakeEnd)
    ensures |synAckSent| <= 1 + MaxRetransm
    ensures synAckSent != [] ==> forall i :: 0 <= i < |synAckSent| ==> synAckSent[i] == synAckSent[0]
    ensures synAckSent != [] ==> synAckSent[0].syn == 1 && synAckSent[0].seqNo == ServerIsn
    ensures synAckSent == [] <==> end == PeerClosed && ackReplies == []
    ensures end == RetriesExhausted ==> |synAckSent| == 1 + MaxRetransm && ackReplies == []
    ensures end == Established ==> state.ack == ServerIsn + 1 && ackReplies != [] && ackReplies[|ackReplies| - 1] == 1
    ensures end == Established && FirstAckAccepted(ack) ==> ackReplies == [1] && state == ack.(ack := ServerIsn + 1)
    ensures SynAccepted(syn) ==> synReplies == [1] && synAckSent != [] && synAckSent[0] == SynAck(syn)
    ensures var at := FirstPass(SynAccepted(syn), synRetries, SynAccepted);
            && (synAckSent == [] <==> at > |synRetries|)
            && (at <= |synRetries| ==>
                  synReplies == Zeros(at) + [1] && synAckSent[0] == SynAck(AcceptedFrame(syn, synRetries, at)))
            && (at > |synRetries| ==> synReplies == Zeros(|synRetries| + 1) && end == PeerClosed)
    ensures var at := FirstPass(FirstAckAccepted(ack), ackRetries, AckAccepted);
            synAckSent != [] && end != RetriesExhausted ==>
              && (end == Established <==> at <= |ackRetries|)
              && (at <= |ackRetries| ==> ackReplies == Zeros(at) + [1])
              && (at > |ackRetries| ==> ackReplies == Zeros(|ackRetries| + 1))
              && (0 < at <= |ackRetries| ==> state == ackRetries[at - 1])
    ensures synAckSent != [] ==> (end == RetriesExhausted <==> StatusAfter(synAckStatuses, |synAckSent|) != 1)
    ensures forall k :: 1 <= k < |synAckSent| ==> StatusAfter(synAckStatuses, k) != 1
    ensures synAckSent != [] && end != RetriesExhausted ==> (FirstAckAccepted(ack) <==> ackReplies == [1])
    ensures (synAckSent != [] && end != RetriesExhausted && !FirstAckAccepted(ack) && ackRetries != [] && AckAccepted(ackRetries[0]))
              ==> end == Established && ackReplies == [0, 1]
  {
    ackReplies := [];
    synAckSent := [];
    state := syn;
    var v;
    synReplies, v := ReceiveUntilAccepted(SynAccepted(syn), synRetries, SynAccepted);
    if v.Closed? {
      end := PeerClosed;
      return;
    }
    state := AcceptedFrame(syn, synRetries, v.at);
    state := SynAck(state);
    var o;
    synAckSent, o := SendWithRetry(state, synAckStatuses);
    if o == Failed {
      end := RetriesExhausted;
      return;
    }
    state := ack.(ack := (ack.ack - 1) % 0x1_0000);
    ackReplies, v := ReceiveUntilAccepted(FirstAckAccepted(ack), ackRetries, AckAccepted);
    if v.Closed? {
      assert ackReplies[0] == 0;
      end := PeerClosed;
      return;
    }
    state := if v.at == 0 then state else ackRetries[v.at - 1];
    end := Established;
  }

  /**
   * The client's handshake.  `checksum` and `len` are the uninitialised fields of
   * its SYN, `synStatuses` the status slots the server answers the SYN with,
   * `synAck` and `synAckRetries` the SYN-ACK frames it reads, `ackStatuses` the
   * status slots answering its ACK.
   */
  method ClientHandshake(
    checksum: u16, len: u16,
    synStatuses: seq<Option<int>>,
    synAck: Header, synAckRetries: seq<Header>,
    ackStatuses: seq<Option<int>>)
    returns (synSent: seq<Header>, synAckReplies: seq<int>, ackSent: seq<Header>, state: Header, end: HandshakeEnd)
    ensures 1 <= |synSent| <= 1 + MaxRetransm
    ensures forall i :: 0 <= i < |synSent| ==> synSent[i] == ClientSyn(checksum, len)
    ensures |ackSent| <= 1 + MaxRetransm
    ensures ackSent != [] ==> SynAckAccepted(state) && forall i :: 0 <= i < |ackSent| ==> ackSent[i] == ClientAck(state)
    ensures ackSent != [] ==> ackSent[0].seqNo == ClientIsn + 1 && ackSent[0].syn == 0
    ensures ackSent != [] ==> ackSent[0].version == ProtocolVersion && ackSent[0].bufsize == ClientBufSize
    ensures end == Established ==> ackSent != []
    ensures ackSent == [] && end == RetriesExhausted ==> |synSent| == 1 + MaxRetransm
    ensures ackSent == [] && end == RetriesExhausted ==> synAckReplies == []
    ensures ackSent != [] && end == RetriesExhausted ==> |ackSent| == 1 + MaxRetransm
    ensures end == PeerClosed ==> ackSent == []
    ensures ackSent == [] && end == RetriesExhausted <==> StatusAfter(synStatuses, |synSent|) != 1
    ensures (StatusAfter(synStatuses, |synSent|) == 1 && SynAckAccepted(synAck))
              ==> synAckReplies == [1] && ackSent != [] && ackSent[0] == ClientAck(TakeSynAck(ClientSyn(checksum, len), synAck))
    ensures ackSent != [] ==> (end == Established <==> StatusAfter(ackStatuses, |ackSent|) == 1)
    ensures var at := FirstPass(SynAckAccepted(synAck), synAckRetries, SynAckAccepted);
            StatusAfter(synStatuses, |synSent|) == 1 ==>
              && (ackSent == [] <==> at > |synAckRetries|)
              && (at <= |synAckRetries| ==>
                    synAckReplies == Zeros(at) + [1]
                    && state == TakeSynAck(ClientSyn(checksum, len), AcceptedFrame(synAck, synAckRetries, at)))
              && (at > |synAckRetries| ==> synAckReplies == Zeros(|synAckRetries| + 1) && end == PeerClosed)
    ensures forall k :: 1 <= k < |synSent| ==> StatusAfter(synStatuses, k) != 1
    ensures forall k :: 1 <= k < |ackSent| ==> StatusAfter(ackStatuses, k) != 1
  {
    var own := ClientSyn(checksum, len);
    state := own;
    synAckReplies := [];
    ackSent := [];
    var o;
    synSent, o := SendWithRetry(own, synStatuses);
    if o == Failed {
      end := RetriesExhausted;
      return;
    }
    var v;
    synAckReplies, v := ReceiveUntilAccepted(SynAckAccepted(synAck), synAckRetries, SynAckAccepted);
    if v.Closed? {
      end := PeerClosed;
      return;
    }
    state := TakeSynAck(own, AcceptedFrame(synAck, synAckRetries, v.at));
    var frame := ClientAck(state);
    ackSent, o := SendWithRetry(frame, ackStatuses);
    end := if o == Confirmed then Established else RetriesExhausted;
  }

  /**
   * Both handshakes run against each other over a clean transport: every frame
   * one side sends, passed through the codec, is what the other side reads, and
   * every status one side replies is what the other side reads.  Both ends are
   * established; every phase needs one transmission except the ACK, which the
   * server's first check refuses and its retry check accepts.
   */
  method CleanHandshake(checksum: u16, len: u16)
    returns (serverEnd: HandshakeEnd, clientEnd: HandshakeEnd, ackTransmissions: nat)
    ensures serverEnd == Established && clientEnd == Established
    ensures ackTransmissions == 2
  {
    var own := ClientSyn(checksum, len);
    var reply := SynAck(own);
    var ackFrame := ClientAck(TakeSynAck(own, reply));
    DecodeEncode(own);
    DecodeEncode(reply);
    DecodeEncode(ackFrame);

    var synReplies, synAckSent, ackReplies, serverState;
    synReplies, synAckSent, ackReplies, serverState, serverEnd :=
      ServerHandshake(Decode(Encode(own)), [], [Some(1)], Decode(Encode(ackFrame)), [Decode(Encode(ackFrame))]);

    var synSent, synAckReplies, ackSent, clientState;
    synSent, synAckReplies, ackSent, clientState, clientEnd :=
      ClientHandshake(checksum, len, [Some(1)], Decode(Encode(reply)), [], [Some(0), Some(1)]);

    // Each side read exactly what the other side wrote.
    assert StatusAfter([Some(1)], 1) == 1;
    assert StatusAfter([Some(0), Some(1)], 1) == 0;
    assert StatusAfter([Some(0), Some(1)], 2) == 1;
    assert synReplies == [1];
    assert |synAckSent| == 1 && synAckSent[0] == reply;
    assert synSent[0] == own && |synSent| == 1;
    assert synAckReplies == [1];
    assert ackReplies == [0, 1];
    assert |ackSent| == 2 && ackSent[0] == ackSent[1] == ackFrame;
    ackTransmissions := |ackSent|;
  }
}
